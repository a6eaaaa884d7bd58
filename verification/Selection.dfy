/** Which entries a list of names selects, and what that means for the disk. */
module Selection {
  import opened Bytes
  import opened Errors
  import opened ArchiveFormat
  import opened Names
  import opened Disk
  import opened VolumeReader
  import opened EntrySpec
  import opened SolidPlan
  import opened SolidSink
  import opened SolidSpec
  import opened SolidExtractor
  import opened SolidEquivalence
  import opened Extraction

  // ---------- names and patterns ----------

  /** The name itself, or a path below it. */
  ghost predicate IsOrIsBelow(name: string, pat: string) {
    name == pat || exists rest: string :: name == pat + "/" + rest
  }

  /** A pattern with its slashes at the end names an entry and everything below it. */
  ghost predicate Covers(pattern: string, name: string) {
    exists n :: 0 <= n <= |pattern|
      && !EndsInSlash(pattern[..n]) && OnlySlashes(pattern[n..]) && IsOrIsBelow(name, pattern[..n])
  }

  lemma {:induction false} Taken(pattern: string) returns (n: nat)
    ensures n <= |pattern| && !EndsInSlash(pattern[..n]) && OnlySlashes(pattern[n..])
  {
    n := |pattern|;
    if EndsInSlash(pattern) {
      var shorter := pattern[..|pattern| - 1];
      n := Taken(shorter);
      assert pattern[..n] == shorter[..n];
      assert pattern[n..] == shorter[n..] + "/";
    } else {
      assert pattern[..n] == pattern && pattern[n..] == "";
    }
  }

  /** A pattern without slashes at the end, and any number of them behind it. */
  lemma MatchesIff(name: string, pat: string, slashes: string)
    requires !EndsInSlash(pat) && OnlySlashes(slashes)
    ensures MatchesFilter(name, pat + slashes) <==> name == pat || exists rest: string :: name == pat + "/" + rest
  {
    TrimEndIs(pat, slashes);
    if MatchesFilter(name, pat + slashes) && name != pat {
      var rest := name[|pat| + 1..];
      assert name == pat + name[|pat|..] && name[|pat|..] == "/" + rest;
      assert name == pat + "/" + rest;
    }
    if exists rest: string :: name == pat + "/" + rest {
      var rest: string :| name == pat + "/" + rest;
      assert name[..|pat|] == pat && name[|pat|] == '/';
    }
  }

  /** A filter matches exactly what its pattern names. */
  lemma MatchesIsNames(name: string, pattern: string)
    ensures MatchesFilter(name, pattern) <==> Covers(pattern, name)
  {
    hide MatchesFilter, IsOrIsBelow;
    var n := Taken(pattern);
    assert pattern == pattern[..n] + pattern[n..];
    MatchesIs(name, pattern[..n], pattern[n..]);
    if Covers(pattern, name) {
      var m :| 0 <= m <= |pattern|
        && !EndsInSlash(pattern[..m]) && OnlySlashes(pattern[m..]) && IsOrIsBelow(name, pattern[..m]);
      assert pattern == pattern[..m] + pattern[m..];
      MatchesIs(name, pattern[..m], pattern[m..]);
    }
  }

  lemma MatchesIs(name: string, pat: string, slashes: string)
    requires !EndsInSlash(pat) && OnlySlashes(slashes)
    ensures MatchesFilter(name, pat + slashes) <==> IsOrIsBelow(name, pat)
  {
    MatchesIff(name, pat, slashes);
  }

  /** "doc" names itself and what is below it, not what merely begins with it. */
  lemma DocExample()
    ensures MatchesFilter("doc", "doc") && MatchesFilter("doc/a", "doc") && !MatchesFilter("document.txt", "doc")
    ensures MatchesFilter("doc", "doc/") && MatchesFilter("doc/a", "doc//")
  {
    assert "doc" + "" == "doc" && "doc" + "/" == "doc/" && "doc" + "//" == "doc//";
    MatchesIff("doc", "doc", "");
    MatchesIff("doc/a", "doc", "");
    MatchesIff("document.txt", "doc", "");
    MatchesIff("doc", "doc", "/");
    MatchesIff("doc/a", "doc", "//");
    assert "doc/a" == "doc" + "/" + "a";
    assert "document.txt"[3] == 'u';
  }

  // ---------- selected entries ----------

  ghost predicate NamedBy(e: EggFileEntry, files: seq<string>) {
    exists f :: f in files && Covers(f, e.fileName)
  }

  /** Without a list everything is extracted, with one exactly what it names. */
  lemma SelectedIff(e: EggFileEntry, files: seq<string>)
    ensures ShouldExtract(e, None)
    ensures ShouldExtract(e, Some(files)) <==> NamedBy(e, files)
  {
    hide MatchesFilter, Covers;
    forall f | f in files ensures MatchesFilter(e.fileName, f) <==> Covers(f, e.fileName) {
      MatchesIsNames(e.fileName, f);
    }
  }

  /** FileNotFound is for a list in which some name names no entry. */
  lemma AllMatchedIff(entries: seq<EggFileEntry>, files: seq<string>)
    ensures AllMatched(entries, files)
       <==> forall f :: f in files ==> exists e :: e in entries && Covers(f, e.fileName)
  {
    hide MatchesFilter, Covers;
    forall f, e | f in files && e in entries ensures MatchesFilter(e.fileName, f) <==> Covers(f, e.fileName) {
      MatchesIsNames(e.fileName, f);
    }
    forall f | f in files
      ensures SomeMatch(entries, f) <==> exists e :: e in entries && Covers(f, e.fileName)
    {
    }
  }

  // ---------- what is on the disk ----------

  /** No entry that the list names goes to this path. */
  ghost predicate NotNamed(entries: seq<EggFileEntry>, files: seq<string>, dest: Path, q: Path) {
    forall i :: 0 <= i < |entries| && SafeJoin(dest, entries[i].fileName) == Ok(q) ==> !NamedBy(entries[i], files)
  }

  lemma {:induction false} PutElsewhere(
    job: Job, flat: bytes, entries: seq<EggFileEntry>, n: nat, files: seq<string>, before: Output, q: Path)
    requires n <= |entries| && NotNamed(entries, files, job.dest, q)
    ensures SameFile(before, PutBy(job, flat, entries, n, Some(files), before), q)
  {
    hide SafeJoin, EntryOutcome, ShouldExtract, NamedBy;
    if n > 0 {
      PutElsewhere(job, flat, entries, n - 1, files, before, q);
      SelectedIff(entries[n - 1], files);
    }
  }

  lemma NoTarget(plan: Plan, files: seq<string>, q: Path)
    requires plan.Valid() && plan.filter == Some(files) && NotNamed(plan.entries, files, plan.dest, q)
    ensures !IsTarget(plan, q)
  {
    hide SafeJoin, ShouldExtract, NamedBy;
    forall j | 0 <= j < |plan.fileSpans| ensures q !in NewPath(plan, j) {
      assert plan.fileSpans[j] in plan.fileSpans;
      SelectedIff(plan.Entry(j), files);
    }
  }

  /** A successful extraction of named files leaves every path alone that no named entry goes to. */
  lemma UnnamedUntouched(
    job: Job, flat: bytes, archive: Archive, files: seq<string>, before: Output, now: Output, q: Path)
    requires Extracted(job, flat, archive, Some(files), before, now)
    requires NotNamed(archive.entries, files, job.dest, q)
    ensures SameFile(before, now, q)
  {
    hide NotNamed, SolidOutcome, Written, IsTarget;
    if archive.isSolid {
      var plan := PlanOf(archive.entries, job.dest, Some(files), job.pipeMode);
      var stream := OutcomeOfSolid(job, flat, archive, Some(files)).value;
      WrittenTargets(plan, before, |plan.fileSpans|, stream);
      NoTarget(plan, files, q);
    } else {
      PutElsewhere(job, flat, archive.entries, |archive.entries|, files, before, q);
    }
  }

  /** No later named entry goes to the path of entry i. */
  ghost predicate LastAt(entries: seq<EggFileEntry>, i: nat, n: nat, files: seq<string>, dest: Path)
    requires i < n <= |entries|
  {
    forall k :: i < k < n && NamedBy(entries[k], files) ==>
      SafeJoin(dest, entries[k].fileName) != SafeJoin(dest, entries[i].fileName)
  }

  /** What the list names is extracted: the target holds the entry's content, unless a later entry went there too. */
  lemma {:induction false} NamedExtracted(
    job: Job, flat: bytes, entries: seq<EggFileEntry>, n: nat, files: seq<string>, before: Output, i: nat)
    requires i < n <= |entries| && !job.pipeMode && EachFine(job, flat, entries, n, Some(files))
    requires NamedBy(entries[i], files) && !entries[i].IsDirectory() && LastAt(entries, i, n, files, job.dest)
    ensures SafeJoin(job.dest, entries[i].fileName).Ok? && OutcomeOf(job, flat, entries[i]).Ok?
    ensures var q := SafeJoin(job.dest, entries[i].fileName).value;
      var now := PutBy(job, flat, entries, n, Some(files), before);
      q in now.files && now.files[q] == OutcomeOf(job, flat, entries[i]).value
  {
    hide SafeJoin, ShouldExtract, NamedBy, Content, EggFileEntry.IsDirectory;
    SelectedIff(entries[i], files);
    SelectedIff(entries[n - 1], files);
    if i < n - 1 {
      NamedExtracted(job, flat, entries, n - 1, files, before, i);
    }
  }

  /** `extract_files` in terms of names: the other paths are untouched, and some name without an entry is the error. */
  method ExtractNamed(
    job: Job, reader: MultiVolumeReader, archive: Archive, files: seq<string>, disk: Disk)
    returns (res: Result<Unit>, ghost done: Result<Unit>)
    requires reader.Valid() && AllLocated(archive.entries) && disk !in {reader} + reader.Files()
    modifies reader, reader.Files(), disk
    ensures reader.Valid() && (done.Err? ==> res == done)
    ensures done.Ok? ==>
      && Extracted(job, reader.Flat(), archive, Some(files), old(disk.State()), disk.State())
      && (forall q: Path :: NotNamed(archive.entries, files, job.dest, q) ==>
            SameFile(old(disk.State()), disk.State(), q))
      && (res.Ok? <==> forall f :: f in files ==> exists e :: e in archive.entries && Covers(f, e.fileName))
      && (res.Err? ==> res == Err(FileNotFound))
  {
    hide AllLocated, Covers, AllMatched, Extracted, FailsWith, LeftBehind, Contained, NotNamed;
    ghost var before := disk.State();
    AllMatchedIff(archive.entries, files);
    res, done := ExtractFiles(job, reader, archive, files, disk);
    if done.Ok? {
      forall q: Path | NotNamed(archive.entries, files, job.dest, q) ensures SameFile(before, disk.State(), q) {
        UnnamedUntouched(job, reader.Flat(), archive, files, before, disk.State(), q);
      }
    }
  }
}
