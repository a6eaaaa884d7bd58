/** Where extraction writes: files by path, standard output, and operations that may fail. */
module Disk {
  import opened Bytes
  import opened Errors

  /** A path as its components. */
  type Path = seq<string>

  function Split(s: string): (parts: seq<string>)
    ensures parts != []
  {
    if s == "" then [""]
    else
      var rest := Split(s[1..]);
      if s[0] == '/' then [""] + rest else [[s[0]] + rest[0]] + rest[1..]
  }

  function Normal(parts: seq<string>): seq<string> {
    if parts == [] then [] else (if parts[0] == "" || parts[0] == "." then [] else [parts[0]]) + Normal(parts[1..])
  }

  /** `safe_join` on a Unix path: only plain components below `dest`, and at least one. */
  function SafeJoin(dest: Path, name: string): (r: Result<Path>)
    ensures r.Ok? ==> dest < r.value && ".." !in r.value[|dest|..]
  {
    var parts := Split(name);
    if name != "" && name[0] == '/' then Err(PathTraversal)
    else if ".." in parts then Err(PathTraversal)
    else if Normal(parts) == [] then Err(CorruptedFile)
    else
      NormalKeeps(parts);
      Ok(dest + Normal(parts))
  }

  lemma {:induction false} NormalKeeps(parts: seq<string>)
    ensures forall c :: c in Normal(parts) ==> c in parts
  {
    if parts != [] {
      NormalKeeps(parts[1..]);
    }
  }

  datatype Output = Output(files: map<Path, bytes>, stdout: bytes)

  datatype Writer = ToStdout | ToFile(path: Path)

  class Disk {
    var files: map<Path, bytes>
    var stdout: bytes
    /** Whether creating or writing has failed so far. */
    var faulted: bool
    /** Whether removing has failed so far. */
    var stuck: bool

    function State(): Output
      reads this
    {
      Output(files, stdout)
    }

    constructor (files: map<Path, bytes>)
      ensures State() == Output(files, []) && !faulted && !stuck
    {
      this.files := files;
      stdout := [];
      faulted, stuck := false, false;
    }

    /** `create_dir_all` for the parent, then `File::create`: an existing file is truncated. */
    method Create(path: Path) returns (ok: bool)
      modifies this
      ensures ok ==> State() == old(State()).(files := old(files)[path := []]) && faulted == old(faulted)
      ensures !ok ==> State() == old(State()) && faulted
      ensures stuck == old(stuck)
    {
      ok := *;
      if ok {
        files := files[path := []];
      } else {
        faulted := true;
      }
    }

    /** `write_all` to an open writer; a failing write may have written a part. */
    method Append(w: Writer, data: bytes) returns (ok: bool)
      requires w.ToFile? ==> w.path in files
      modifies this
      ensures ok ==> State() == Appended(old(State()), w, data) && faulted == old(faulted)
      ensures !ok ==> faulted && exists k :: 0 <= k <= |data| && State() == Appended(old(State()), w, data[..k])
      ensures stuck == old(stuck)
    {
      ok := *;
      var n := |data|;
      if !ok {
        n :| 0 <= n <= |data|;
        faulted := true;
      }
      assert ok ==> data[..n] == data;
      match w {
        case ToStdout => stdout := stdout + data[..n];
        case ToFile(path) => files := files[path := files[path] + data[..n]];
      }
    }

    /** `remove_file`, its result ignored: the file is gone, or it is still there and the disk is stuck. */
    method Remove(path: Path)
      modifies this
      ensures State() == old(State()) || State() == old(State()).(files := old(files) - {path})
      ensures !stuck ==> State() == old(State()).(files := old(files) - {path})
      ensures faulted == old(faulted) && (old(stuck) ==> stuck)
    {
      var ok := *;
      if ok {
        files := files - {path};
      } else {
        stuck := true;
      }
    }
  }

  // ---------- what stays as it was ----------

  predicate SameFile(before: Output, now: Output, q: Path) {
    && (q in before.files <==> q in now.files)
    && (q in before.files && q in now.files ==> before.files[q] == now.files[q])
  }

  /** No file outside `dest` is created, changed or removed, and nothing printed is taken back. */
  ghost predicate Contained(before: Output, now: Output, dest: Path) {
    && before.stdout <= now.stdout
    && forall q: Path :: !(dest < q) ==> SameFile(before, now, q)
  }

  lemma NothingChanged(o: Output, dest: Path)
    ensures Contained(o, o, dest)
  {
  }

  lemma ContainedTwice(a: Output, b: Output, c: Output, dest: Path)
    requires Contained(a, b, dest) && Contained(b, c, dest)
    ensures Contained(a, c, dest)
  {
    forall q: Path | !(dest < q) ensures SameFile(a, c, q) {
      assert SameFile(a, b, q) && SameFile(b, c, q);
    }
  }

  function Appended(o: Output, w: Writer, data: bytes): Output
    requires w.ToFile? ==> w.path in o.files
  {
    match w
    case ToStdout => o.(stdout := o.stdout + data)
    case ToFile(path) => o.(files := o.files[path := o.files[path] + data])
  }
}
