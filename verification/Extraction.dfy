/** The entry points of src/extract.rs: `extract_all`, `extract_files`, `verify_password`. */
module Extraction {
  import opened Bytes
  import opened Errors
  import opened ArchiveFormat
  import opened Disk
  import opened VolumeReader
  import opened Decryptors
  import opened EntrySpec
  import opened EntryExtractor
  import opened SolidPlan
  import opened SolidSpec
  import opened SolidExtractor
  import opened SolidEquivalence

  /** Everything extraction is given besides the archive. */
  datatype Job = Job(env: Primitives, dest: Path, password: Option<bytes>, pipeMode: bool)

  function OutcomeOf(job: Job, flat: bytes, e: EggFileEntry): Result<bytes> {
    EntryOutcome(job.env, flat, e, job.dest, job.password)
  }

  /** What the first n entries leave, the selected ones extracted one by one. */
  function PutBy(
    job: Job, flat: bytes, entries: seq<EggFileEntry>, n: nat, filter: Option<seq<string>>, before: Output): Output
    requires n <= |entries|
  {
    EntriesPut(job.env, flat, entries, n, job.dest, job.password, filter, job.pipeMode, before)
  }

  ghost predicate EachFine(job: Job, flat: bytes, entries: seq<EggFileEntry>, n: nat, filter: Option<seq<string>>)
    requires n <= |entries|
  {
    forall i :: 0 <= i < n && ShouldExtract(entries[i], filter) ==> OutcomeOf(job, flat, entries[i]).Ok?
  }

  /** Entry n is selected, and all selected entries before it are fine. */
  ghost predicate ReachedTo(job: Job, flat: bytes, entries: seq<EggFileEntry>, n: nat, filter: Option<seq<string>>)
    requires n < |entries|
  {
    ShouldExtract(entries[n], filter) && EachFine(job, flat, entries, n, filter)
  }

  /** The first selected entry that fails decides. */
  ghost predicate SomeFails(
    job: Job, flat: bytes, entries: seq<EggFileEntry>, filter: Option<seq<string>>, error: Error)
  {
    exists n :: 0 <= n < |entries|
      && ReachedTo(job, flat, entries, n, filter) && OutcomeOf(job, flat, entries[n]) == Err(error)
  }

  /** The entries before some selected one are extracted, and of that one nothing is left, if removing works. */
  ghost predicate StoppedAtOne(
    job: Job, flat: bytes, entries: seq<EggFileEntry>, filter: Option<seq<string>>, before: Output, now: Output,
    stuck: bool)
  {
    exists n :: 0 <= n < |entries| && ReachedTo(job, flat, entries, n, filter)
      && var here := PutBy(job, flat, entries, n, filter, before);
         (&& TargetAtMost(here, now, job.dest, entries[n].fileName, job.pipeMode)
          && (!stuck ==> NothingLeft(here, now, job.dest, entries[n].fileName, job.pipeMode)))
  }

  /** The loop over the entries of an archive that is not solid. */
  method ExtractEach(
    job: Job, reader: MultiVolumeReader, entries: seq<EggFileEntry>, filter: Option<seq<string>>, disk: Disk)
    returns (res: Result<Unit>)
    requires reader.Valid() && AllLocated(entries) && disk !in {reader} + reader.Files()
    modifies reader, reader.Files(), disk
    ensures reader.Valid()
    ensures res.Ok? ==>
      && disk.faulted == old(disk.faulted) && EachFine(job, reader.Flat(), entries, |entries|, filter)
      && disk.State() == PutBy(job, reader.Flat(), entries, |entries|, filter, old(disk.State()))
    ensures res.Err? && !disk.faulted ==> SomeFails(job, reader.Flat(), entries, filter, res.error)
    ensures res.Err? ==>
      StoppedAtOne(job, reader.Flat(), entries, filter, old(disk.State()), disk.State(), disk.stuck)
    ensures Contained(old(disk.State()), disk.State(), job.dest)
  {
    hide FlatOf, MultiVolumeReader.Shaped, ShouldExtract, EntryOutcome, EntryPut, Located, NothingLeft, TargetAtMost,
      Contained;
    ghost var before := disk.State();
    NothingChanged(before, job.dest);
    for n := 0 to |entries|
      invariant reader.Valid() && disk.faulted == old(disk.faulted)
      invariant EachFine(job, reader.Flat(), entries, n, filter)
      invariant disk.State() == PutBy(job, reader.Flat(), entries, n, filter, before)
      invariant Contained(before, disk.State(), job.dest)
    {
      if ShouldExtract(entries[n], filter) {
        ghost var here := disk.State();
        res := ExtractEntry(job.env, reader, entries[n], job.dest, job.password, job.pipeMode, disk);
        ContainedTwice(before, here, disk.State(), job.dest);
        if res.Err? {
          assert ReachedTo(job, reader.Flat(), entries, n, filter);
          return;
        }
      }
    }
    return Ok(Unit.Unit);
  }

  // ---------- solid or not ----------

  ghost function OutcomeOfSolid(job: Job, flat: bytes, archive: Archive, filter: Option<seq<string>>): Result<bytes> {
    SolidOutcome(job.env, flat, archive.entries, job.dest, job.password, filter, job.pipeMode)
  }

  /**
   What a successful extraction leaves. Solid: every selected file with its slice of the stream. Else: what the selected
   entries put there one by one.
   */
  ghost predicate Extracted(
    job: Job, flat: bytes, archive: Archive, filter: Option<seq<string>>, before: Output, now: Output)
  {
    if archive.isSolid then
      var plan := PlanOf(archive.entries, job.dest, filter, job.pipeMode);
      var spec := OutcomeOfSolid(job, flat, archive, filter);
      spec.Ok? && now == Written(plan, before, |plan.fileSpans|, spec.value)
    else
      && EachFine(job, flat, archive.entries, |archive.entries|, filter)
      && now == PutBy(job, flat, archive.entries, |archive.entries|, filter, before)
  }

  /** The error of a failed extraction: of the solid run, or of the first selected entry that fails. */
  ghost predicate FailsWith(job: Job, flat: bytes, archive: Archive, filter: Option<seq<string>>, error: Error) {
    if archive.isSolid then OutcomeOfSolid(job, flat, archive, filter) == Err(error)
    else SomeFails(job, flat, archive.entries, filter, error)
  }

  /** What a failed extraction leaves, removals that fail apart. */
  ghost predicate LeftBehind(
    job: Job, flat: bytes, archive: Archive, filter: Option<seq<string>>, before: Output, now: Output, stuck: bool)
  {
    if archive.isSolid then
      SolidLeft(PlanOf(archive.entries, job.dest, filter, job.pipeMode), archive.entries, before, now, stuck)
    else StoppedAtOne(job, flat, archive.entries, filter, before, now, stuck)
  }

  ghost predicate Extractable(job: Job, flat: bytes, archive: Archive, filter: Option<seq<string>>) {
    if archive.isSolid then
      SolidSucceeds(job.env, flat, archive.entries, job.dest, job.password, filter, job.pipeMode)
    else
      EachFine(job, flat, archive.entries, |archive.entries|, filter)
  }

  /** There is an error exactly when the archive is not extractable, and only one. */
  lemma FailureIsExact(job: Job, flat: bytes, archive: Archive, filter: Option<seq<string>>)
    ensures (exists error :: FailsWith(job, flat, archive, filter, error)) <==> !Extractable(job, flat, archive, filter)
    ensures forall a, b ::
      FailsWith(job, flat, archive, filter, a) && FailsWith(job, flat, archive, filter, b) ==> a == b
  {
    hide SolidOutcome, SolidSucceeds, EntryOutcome, ShouldExtract;
    if archive.isSolid {
      OutcomeIsSuccess(job.env, flat, archive.entries, job.dest, job.password, filter, job.pipeMode);
      if OutcomeOfSolid(job, flat, archive, filter).Err? {
        assert FailsWith(job, flat, archive, filter, OutcomeOfSolid(job, flat, archive, filter).error);
      }
    } else {
      if !Extractable(job, flat, archive, filter) {
        var error := FirstFailure(job, flat, archive.entries, |archive.entries|, filter);
        assert FailsWith(job, flat, archive, filter, error);
      }
    }
  }

  lemma {:induction false} FirstFailure(
    job: Job, flat: bytes, entries: seq<EggFileEntry>, n: nat, filter: Option<seq<string>>)
    returns (error: Error)
    requires n <= |entries| && !EachFine(job, flat, entries, n, filter)
    ensures SomeFails(job, flat, entries, filter, error)
  {
    hide OutcomeOf, ShouldExtract;
    if !EachFine(job, flat, entries, n - 1, filter) {
      error := FirstFailure(job, flat, entries, n - 1, filter);
    } else {
      error := OutcomeOf(job, flat, entries[n - 1]).error;
      assert ReachedTo(job, flat, entries, n - 1, filter);
    }
  }

  /** What a run of extraction promises: on success and on failure, for the result, the error and the disk. */
  ghost predicate Performed(
    job: Job, flat: bytes, archive: Archive, filter: Option<seq<string>>, res: Result<Unit>,
    before: Output, now: Output, wasFaulted: bool, isFaulted: bool, stuck: bool)
  {
    && (res.Ok? ==> Extracted(job, flat, archive, filter, before, now) && isFaulted == wasFaulted)
    && (res.Err? && !isFaulted ==> FailsWith(job, flat, archive, filter, res.error))
    && (res.Err? ==> LeftBehind(job, flat, archive, filter, before, now, stuck))
    && Contained(before, now, job.dest)
  }

  /** The solid or the per-entry path. */
  method ExtractSelected(
    job: Job, reader: MultiVolumeReader, archive: Archive, filter: Option<seq<string>>, disk: Disk)
    returns (res: Result<Unit>)
    requires reader.Valid() && AllLocated(archive.entries) && disk !in {reader} + reader.Files()
    modifies reader, reader.Files(), disk
    ensures reader.Valid()
    ensures Performed(
      job, reader.Flat(), archive, filter, res, old(disk.State()), disk.State(), old(disk.faulted), disk.faulted,
      disk.stuck)
  {
    hide FlatOf, MultiVolumeReader.Shaped, SolidOutcome, Written, PutBy, PlanOf, AllLocated, EachFine, SomeFails,
      StoppedAtOne, SolidLeft, Contained;
    if archive.isSolid {
      res := ExtractAllSolid(
        job.env, reader, archive.entries, job.dest, job.password, job.pipeMode, filter, disk);
    } else {
      res := ExtractEach(job, reader, archive.entries, filter, disk);
    }
  }

  /** `extract_all`. */
  method ExtractAll(job: Job, reader: MultiVolumeReader, archive: Archive, disk: Disk) returns (res: Result<Unit>)
    requires reader.Valid() && AllLocated(archive.entries) && disk !in {reader} + reader.Files()
    modifies reader, reader.Files(), disk
    ensures reader.Valid()
    ensures Performed(
      job, reader.Flat(), archive, None, res, old(disk.State()), disk.State(), old(disk.faulted), disk.faulted,
      disk.stuck)
  {
    hide FlatOf, MultiVolumeReader.Shaped, AllLocated, Performed;
    res := ExtractSelected(job, reader, archive, None, disk);
  }

  ghost predicate AllMatched(entries: seq<EggFileEntry>, files: seq<string>) {
    forall f :: f in files ==> SomeMatch(entries, f)
  }

  predicate SomeMatch(entries: seq<EggFileEntry>, f: string) {
    exists e :: e in entries && MatchesFilter(e.fileName, f)
  }

  /** `extract_files`: what matches is extracted even if another name matches nothing; that is then the error. */
  method ExtractFiles(
    job: Job, reader: MultiVolumeReader, archive: Archive, files: seq<string>, disk: Disk)
    returns (res: Result<Unit>, ghost done: Result<Unit>)
    requires reader.Valid() && AllLocated(archive.entries) && disk !in {reader} + reader.Files()
    modifies reader, reader.Files(), disk
    ensures reader.Valid()
    ensures res == if done.Ok? && !AllMatched(archive.entries, files) then Err(FileNotFound) else done
    ensures Performed(
      job, reader.Flat(), archive, Some(files), done, old(disk.State()), disk.State(), old(disk.faulted),
      disk.faulted, disk.stuck)
  {
    hide FlatOf, MultiVolumeReader.Shaped, AllLocated, MatchesFilter, SomeMatch, Performed;
    var unmatched := false;
    var i := 0;
    while i < |files| && !unmatched
      invariant 0 <= i <= |files| && (unmatched ==> !AllMatched(archive.entries, files))
      invariant !unmatched ==> forall k :: 0 <= k < i ==> SomeMatch(archive.entries, files[k])
    {
      unmatched := !SomeMatch(archive.entries, files[i]);
      i := i + 1;
    }
    res := ExtractSelected(job, reader, archive, Some(files), disk);
    done := res;
    if res.Ok? && unmatched {
      res := Err(FileNotFound);
    }
  }

  // ---------- password ----------

  /** The entry on which a password is tried: the first encrypted one. */
  function FirstEncrypted(entries: seq<EggFileEntry>): (r: Option<EggFileEntry>)
    ensures r.Some? ==> r.value in entries && r.value.encryptInfo.Some?
    ensures r.None? ==> forall e :: e in entries ==> e.encryptInfo.None?
  {
    if entries == [] then None
    else if entries[0].encryptInfo.Some? then Some(entries[0])
    else FirstEncrypted(entries[1..])
  }

  /** `verify_password`. */
  method VerifyPassword(env: Primitives, entries: seq<EggFileEntry>, password: bytes) returns (res: Result<bool>)
    ensures match FirstEncrypted(entries)
      case None => res == Ok(true)
      case Some(e) =>
        match Setup(env, e, Some(password))
        case Ok(_) => res == Ok(true)
        case Err(error) => res == if error == InvalidPassword then Ok(false) else Err(error)
  {
    hide Setup;
    for i := 0 to |entries|
      invariant FirstEncrypted(entries) == FirstEncrypted(entries[i..])
    {
      if entries[i].encryptInfo.Some? {
        var crypto, d := SetupObject(env, entries[i], Some(password));
        if crypto.Ok? {
          return Ok(true);
        }
        if crypto.error == InvalidPassword {
          return Ok(false);
        }
        return Err(crypto.error);
      }
      assert entries[i..][1..] == entries[i + 1..];
    }
    return Ok(true);
  }
}
