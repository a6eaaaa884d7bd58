/** What normalising a name keeps and removes (src/encoding.rs), and names through the writer and the parser. */
module Names {
  import opened Bytes
  import opened Errors
  import opened ArchiveFormat
  import opened ArchiveWriter
  import opened RoundTrip
  import Calendar

  // ---------- normal names ----------

  /** Neither a backslash nor a control character. */
  predicate IsClean(s: string) {
    forall i :: 0 <= i < |s| ==> s[i] != '\\' && !IsControl(s[i])
  }

  predicate IsNormal(s: string) {
    IsClean(s) && (s != "" ==> s[0] != '/')
  }

  lemma {:induction false} NoBackslashes(s: string)
    ensures |ForwardSlashes(s)| == |s|
    ensures forall i :: 0 <= i < |s| ==> ForwardSlashes(s)[i] == if s[i] == '\\' then '/' else s[i]
  {
    if s != "" {
      NoBackslashes(s[1..]);
    }
  }

  lemma {:induction false} TrimmedFrom(s: string)
    ensures |TrimStart(s)| <= |s| && TrimStart(s) == s[|s| - |TrimStart(s)|..]
    ensures TrimStart(s) != "" ==> TrimStart(s)[0] != '/'
    ensures s != "" && s[0] == '/' ==> |TrimStart(s)| < |s|
  {
    if s != "" && s[0] == '/' {
      TrimmedFrom(s[1..]);
    }
  }

  lemma {:induction false} NoControls(s: string)
    ensures |DropControls(s)| <= |s|
    ensures forall c :: c in DropControls(s) ==> c in s && !IsControl(c)
    ensures DropControls(s) == s <==> forall i :: 0 <= i < |s| ==> !IsControl(s[i])
  {
    hide IsControl;
    if s != "" {
      NoControls(s[1..]);
      var rest := DropControls(s[1..]);
      if IsControl(s[0]) {
        assert |DropControls(s)| < |s|;
      } else {
        assert DropControls(s) == [s[0]] + rest;
        assert s == [s[0]] + s[1..];
        assert DropControls(s)[1..] == rest && ([s[0]] + s[1..])[1..] == s[1..];
      }
    }
  }

  /** Whatever the text, the normalised name has no backslash and no control character. */
  lemma NormalizeCleans(s: string)
    ensures IsClean(NormalizePath(s))
  {
    hide IsControl, ForwardSlashes, TrimStart, DropControls;
    NoBackslashes(s);
    TrimmedFrom(ForwardSlashes(s));
    NoControls(TrimStart(ForwardSlashes(s)));
    var r := NormalizePath(s);
    forall i | 0 <= i < |r| ensures r[i] != '\\' && !IsControl(r[i]) {
      assert r[i] in r;
      assert r[i] in TrimStart(ForwardSlashes(s));
    }
  }

  /** The names that normalising leaves alone are exactly the normal ones. */
  lemma NormalizeFixes(s: string)
    ensures NormalizePath(s) == s <==> IsNormal(s)
  {
    hide IsControl, ForwardSlashes, TrimStart, DropControls;
    NoBackslashes(s);
    var f := ForwardSlashes(s);
    TrimmedFrom(f);
    NoControls(TrimStart(f));
    if IsNormal(s) {
      assert f == s;
      NormalUntrimmed(s);
    }
    if NormalizePath(s) == s {
      NormalizeCleans(s);
      if s != "" {
        assert f[0] == '/' ==> |NormalizePath(s)| < |s|;
      }
    }
  }

  lemma NormalUntrimmed(s: string)
    requires s != "" ==> s[0] != '/'
    ensures TrimStart(s) == s
  {
  }

  /** A text without its leading slashes and backslashes. */
  function AfterSlashes(s: string): string {
    if s != "" && IsSlash(s[0]) then AfterSlashes(s[1..]) else s
  }

  /** A text without its leading control characters. */
  function AfterControls(s: string): string {
    if s != "" && IsControl(s[0]) then AfterControls(s[1..]) else s
  }

  predicate IsSlash(c: char) {
    c == '/' || c == '\\'
  }

  lemma {:induction false} SlashesTrimmed(s: string)
    ensures TrimStart(ForwardSlashes(s)) == ForwardSlashes(AfterSlashes(s))
  {
    if s != "" {
      SlashesTrimmed(s[1..]);
      assert ForwardSlashes(s)[1..] == ForwardSlashes(s[1..]);
    }
  }

  /** What is shown first is the first character that is no control character. */
  lemma {:induction false} FirstShown(s: string)
    ensures var r, t := DropControls(ForwardSlashes(s)), AfterControls(s);
      (r != "" && r[0] == '/') <==> (t != "" && IsSlash(t[0]))
  {
    if s != "" {
      FirstShown(s[1..]);
      assert ForwardSlashes(s)[1..] == ForwardSlashes(s[1..]);
    }
  }

  /**
   Normalising twice is normalising once exactly when no slash or backslash comes first once the leading slashes and
   backslashes, and then the control characters behind them, are taken off.
   */
  lemma NormalizeTwice(s: string)
    ensures var t := AfterControls(AfterSlashes(s));
      NormalizePath(NormalizePath(s)) == NormalizePath(s) <==> !(t != "" && IsSlash(t[0]))
  {
    hide IsControl, ForwardSlashes, TrimStart, DropControls;
    NormalizeCleans(s);
    NormalizeFixes(NormalizePath(s));
    SlashesTrimmed(s);
    FirstShown(AfterSlashes(s));
  }

  /** A third time never changes anything. */
  lemma TwiceIsEnough(s: string)
    ensures IsNormal(NormalizePath(NormalizePath(s)))
  {
    hide IsControl, ForwardSlashes, TrimStart, DropControls;
    var r := NormalizePath(s);
    NormalizeCleans(s);
    NormalizeCleans(r);
    NoBackslashes(r);
    assert ForwardSlashes(r) == r;
    TrimmedFrom(r);
    var t := TrimStart(r);
    NoControls(t);
    assert forall i :: 0 <= i < |t| ==> t[i] == r[|r| - |t| + i];
  }

  /** Once and twice may differ: the slashes go before the control characters do. */
  lemma NormalizeTwiceDiffers()
    ensures NormalizePath("\U{1}/a") == "/a" && NormalizePath("/a") == "a"
  {
    assert ForwardSlashes("\U{1}/a") == "\U{1}/a" && ForwardSlashes("/a") == "/a";
    assert DropControls("\U{1}/a") == "/a" && DropControls("a") == "a";
  }

  // ---------- slashes at the end ----------

  predicate OnlySlashes(s: string) {
    forall i :: 0 <= i < |s| ==> s[i] == '/'
  }

  predicate EndsInSlash(s: string) {
    s != "" && s[|s| - 1] == '/'
  }

  lemma {:induction false} TrimEndIs(pat: string, slashes: string)
    requires !EndsInSlash(pat) && OnlySlashes(slashes)
    ensures TrimEnd(pat + slashes) == pat
  {
    if slashes == "" {
      assert pat + slashes == pat;
    } else {
      var shorter := slashes[..|slashes| - 1];
      assert (pat + slashes)[..|pat + slashes| - 1] == pat + shorter;
      TrimEndIs(pat, shorter);
    }
  }

  // ---------- names through the archive ----------

  function TextOf(decode: NameDecoder, r: SubRecord): string
    requires r.NameRecord?
  {
    decode(HasFlag(r.flags, 0x08), if HasFlag(r.flags, 0x08) then Some(r.locale) else None, r.name)
  }

  /** The record carries a name whose bytes decode to `text`, absolute or below the entry with the ID `parent`. */
  predicate Carries(decode: NameDecoder, r: SubRecord, parent: Option<nat>, text: string) {
    && r.NameRecord? && TextOf(decode, r) == text
    && match parent
       case None => !HasFlag(r.flags, 0x10)
       case Some(id) => HasFlag(r.flags, 0x10) && r.parent == id
  }

  /** A file written with the name `text`. */
  predicate Named(decode: NameDecoder, rs: seq<SubRecord>, parent: Option<nat>, text: string) {
    && (exists r :: r in rs && r.NameRecord?)
    && (forall r :: r in rs && r.NameRecord? ==> Carries(decode, r, parent, text))
  }

  lemma {:induction false} SubsName(
    decode: NameDecoder, rs: seq<SubRecord>, parent: Option<nat>, text: string, e: EggFileEntry)
    requires forall r :: r in rs && r.NameRecord? ==> Carries(decode, r, parent, text)
    requires
      || ((exists r :: r in rs && r.NameRecord?) && (parent.None? ==> e.parentId.None?))
      || (e.fileName == NormalizePath(text) && e.parentId == parent)
    ensures SubsMeaning(decode, rs, e).fileName == NormalizePath(text)
    ensures SubsMeaning(decode, rs, e).parentId == parent
    decreases |rs|
  {
    hide NormalizePath, HasFlag, OrByte;
    if rs != [] {
      assert rs[0] in rs;
      var e' := SubMeaning(decode, rs[0], e);
      if !rs[0].NameRecord? {
        assert e'.fileName == e.fileName && e'.parentId == e.parentId;
        if r :| r in rs && r.NameRecord? {
          assert r in rs[1..];
        }
      }
      SubsName(decode, rs[1..], parent, text, e');
    }
  }

  // ---------- facts through the archive ----------

  /** What the sub-headers of an entry say of it, encryption apart. */
  datatype Facts = Facts(
    name: string, parentId: Option<nat>, id: nat, size: nat, attr: byte, time: Option<nat>)

  function FactsOf(e: EggFileEntry): Facts {
    Facts(e.fileName, e.parentId, e.fileId, e.uncompressedSize, e.fileAttr, e.fileTime)
  }

  function WrittenFacts(decode: NameDecoder, f: FileRecord): Facts {
    FactsOf(SubsMeaning(decode, f.subs, EmptyEntry(f.id, f.size)))
  }

  lemma FileFacts(decode: NameDecoder, f: FileRecord, p: nat, encrypted: bool)
    ensures FactsOf(FileMeaning(decode, f, p, encrypted).entry) == WrittenFacts(decode, f)
  {
    hide SubsMeaning, BlocksMeaning, SubSection;
  }

  /** Entry by entry, the facts of a body are those of its file records. */
  ghost predicate LikeWritten(decode: NameDecoder, files: seq<FileRecord>, entries: seq<EggFileEntry>, from: nat) {
    && |entries| == from + |files|
    && forall k :: 0 <= k < |files| ==> FactsOf(entries[from + k]) == WrittenFacts(decode, files[k])
  }

  lemma {:induction false} BodyFacts(decode: NameDecoder, rs: seq<BodyRecord>, p: nat, b: Body)
    ensures LikeWritten(decode, Files(rs), BodyMeaning(decode, rs, p, b).entries, |b.entries|)
    ensures b.entries <= BodyMeaning(decode, rs, p, b).entries
    decreases |rs|
  {
    hide FileMeaning, BodyBytes, WrittenFacts, FactsOf, LikeWritten, Step;
    if rs == [] {
      NoFiles(decode, b.entries);
    } else {
      var b' := Step(decode, rs[0], p, b);
      BodyFacts(decode, rs[1..], p + |BodyBytes(rs[0])|, b');
      var m := BodyMeaning(decode, rs[1..], p + |BodyBytes(rs[0])|, b').entries;
      StepIs(decode, rs, p, b);
      if rs[0].FileBody? {
        FileFacts(decode, rs[0].file, p + 4, b.encrypted);
        OneMoreLike(decode, rs[0].file, Files(rs[1..]), b.entries, b'.entries, m);
      } else {
        assert b.entries + [] == b.entries && [] + Files(rs[1..]) == Files(rs[1..]);
      }
    }
  }

  lemma NoFiles(decode: NameDecoder, entries: seq<EggFileEntry>)
    ensures LikeWritten(decode, [], entries, |entries|)
  {
  }

  lemma StepIs(decode: NameDecoder, rs: seq<BodyRecord>, p: nat, b: Body)
    requires rs != []
    ensures var b' := Step(decode, rs[0], p, b);
      && BodyMeaning(decode, rs, p, b) == BodyMeaning(decode, rs[1..], p + |BodyBytes(rs[0])|, b')
      && b'.entries
         == b.entries + (if rs[0].FileBody? then [FileMeaning(decode, rs[0].file, p + 4, b.encrypted).entry] else [])
      && Files(rs) == (if rs[0].FileBody? then [rs[0].file] else []) + Files(rs[1..])
  {
    hide FileMeaning, BodyBytes;
    assert b.entries + [] == b.entries;
  }

  lemma OneMoreLike(
    decode: NameDecoder, f: FileRecord, files: seq<FileRecord>, before: seq<EggFileEntry>, with: seq<EggFileEntry>,
    m: seq<EggFileEntry>)
    requires |with| == |before| + 1 && before <= with <= m && LikeWritten(decode, files, m, |with|)
    requires FactsOf(with[|before|]) == WrittenFacts(decode, f)
    ensures LikeWritten(decode, [f] + files, m, |before|)
  {
    hide WrittenFacts, FactsOf;
    assert m[|before|] == with[|before|];
    forall k | 0 <= k < 1 + |files| ensures FactsOf(m[|before| + k]) == WrittenFacts(decode, ([f] + files)[k]) {
      if k > 0 {
        assert FactsOf(m[|with| + (k - 1)]) == WrittenFacts(decode, files[k - 1]);
      }
    }
  }

  /** The entries before relative names are resolved. */
  function RawEntries(decode: NameDecoder, a: ArchiveValue): seq<EggFileEntry> {
    BodyMeaning(decode, a.body, 14 + |PrefixSection(a.prefix)|, Body([], false)).entries
  }

  lemma ReadBackRaw(decode: NameDecoder, a: ArchiveValue)
    requires WellFormed(a)
    ensures Open(decode, Serialized(a)).Ok?
    ensures Open(decode, Serialized(a)).value.entries == Resolved(RawEntries(decode, a))
    ensures |RawEntries(decode, a)| == |Files(a.body)|
    ensures forall k :: 0 <= k < |Files(a.body)| ==>
      FactsOf(RawEntries(decode, a)[k]) == WrittenFacts(decode, Files(a.body)[k])
  {
    hide Open, Serialized, WellFormed, BodyMeaning, Files, PrefixMeaning, PrefixSection, AllInPlace, Resolved,
      WrittenFacts;
    OpenOfSerialized(decode, a);
    BodyFacts(decode, a.body, 14 + |PrefixSection(a.prefix)|, Body([], false));
    var raw, files := RawEntries(decode, a), Files(a.body);
    forall k | 0 <= k < |files| ensures FactsOf(raw[k]) == WrittenFacts(decode, files[k]) {
      assert raw[0 + k] == raw[k];
    }
  }

  /** An absolute name is not touched when relative ones are resolved. */
  lemma AbsoluteStays(entries: seq<EggFileEntry>, i: nat)
    requires i < |entries| && entries[i].parentId == None
    ensures Resolved(entries)[i].fileName == entries[i].fileName
  {
  }

  /**
   An entry written with a normal absolute name, in an encoding that `decode` inverts, is read back with that very
   name. (Any other text is read back normalised.)
   */
  lemma NameReadBack(decode: NameDecoder, a: ArchiveValue, k: nat, text: string)
    requires WellFormed(a) && k < |Files(a.body)| && Named(decode, Files(a.body)[k].subs, None, text)
    ensures Open(decode, Serialized(a)).Ok? && k < |Open(decode, Serialized(a)).value.entries|
    ensures Open(decode, Serialized(a)).value.entries[k].fileName == NormalizePath(text)
    ensures IsNormal(text) ==> Open(decode, Serialized(a)).value.entries[k].fileName == text
  {
    hide Open, Serialized, WellFormed, NormalizePath, Files, RawEntries, SubsMeaning, Resolved, IsNormal, IsClean;
    ReadBackRaw(decode, a);
    var f := Files(a.body)[k];
    SubsName(decode, f.subs, None, text, EmptyEntry(f.id, f.size));
    AbsoluteStays(RawEntries(decode, a), k);
    NormalizeFixes(text);
    assert |Resolved(RawEntries(decode, a))| == |RawEntries(decode, a)|;
  }

  // ---------- relative names ----------

  /** Entry j is the last with this ID. */
  predicate IsLastWithId(files: seq<FileRecord>, j: nat, id: nat) {
    j < |files| && files[j].id == id && forall i :: j < i < |files| ==> files[i].id != id
  }

  lemma {:induction false} LastIndex(entries: seq<EggFileEntry>, id: nat, n: nat, j: nat)
    requires j < n <= |entries| && entries[j].fileId == id
    requires forall i :: j < i < n ==> entries[i].fileId != id
    ensures IndexBelow(entries, id, n) == j
  {
    if j < n - 1 {
      LastIndex(entries, id, n - 1, j);
    }
  }

  lemma {:induction false} SubsKeepId(decode: NameDecoder, rs: seq<SubRecord>, e: EggFileEntry)
    ensures SubsMeaning(decode, rs, e).fileId == e.fileId
    decreases |rs|
  {
    hide NormalizePath, HasFlag, OrByte;
    if rs != [] {
      SubsKeepId(decode, rs[1..], SubMeaning(decode, rs[0], e));
    }
  }

  /**
   A relative name comes back as the parent's own name, one slash, and the name: the parent is the last entry with the
   ID, its name is taken as it was written, without slashes at its end, and only this one level is put in front.
   */
  lemma RelativeReadBack(
    decode: NameDecoder, a: ArchiveValue, k: nat, text: string, j: nat, core: string, slashes: string)
    requires WellFormed(a) && k < |Files(a.body)| && j < |Files(a.body)| && j != k
    requires IsLastWithId(Files(a.body), j, Files(a.body)[j].id)
    requires Named(decode, Files(a.body)[k].subs, Some(Files(a.body)[j].id), text)
    requires core != "" && !EndsInSlash(core) && OnlySlashes(slashes)
    requires WrittenFacts(decode, Files(a.body)[j]).name == core + slashes
    ensures Open(decode, Serialized(a)).Ok? && k < |Open(decode, Serialized(a)).value.entries|
    ensures Open(decode, Serialized(a)).value.entries[k].fileName == core + "/" + NormalizePath(text)
  {
    hide Open, Serialized, WellFormed, NormalizePath, Files, RawEntries, SubsMeaning, TrimEnd, IndexBelow;
    ReadBackRaw(decode, a);
    var files, raw := Files(a.body), RawEntries(decode, a);
    SubsName(decode, files[k].subs, Some(files[j].id), text, EmptyEntry(files[k].id, files[k].size));
    forall i | 0 <= i < |files| ensures raw[i].fileId == files[i].id {
      SubsKeepId(decode, files[i].subs, EmptyEntry(files[i].id, files[i].size));
    }
    LastIndex(raw, files[j].id, |raw|, j);
    TrimEndIs(core, slashes);
  }

  /** Without an entry of that ID, or with itself for a parent, a relative name stays as it is. */
  lemma OrphanStays(entries: seq<EggFileEntry>, k: nat)
    requires k < |entries| && entries[k].parentId.Some?
    requires forall i :: 0 <= i < |entries| && i != k ==> entries[i].fileId != entries[k].parentId.value
    ensures Resolved(entries)[k].fileName == entries[k].fileName
  {
  }

  // ---------- attributes ----------

  /** What makes a directory of an entry: the Windows attribute bit, or a POSIX mode of the directory type. */
  predicate MakesDirectory(r: SubRecord) {
    match r
    case WindowsRecord(_, _, attr, _) => HasFlag(attr, 0x80)
    case PosixRecord(_, mode, _, _, _, _) => 0x4000 <= mode % 0x10000 < 0x5000
    case _ => false
  }

  lemma FlagKept(a: byte, b: byte)
    ensures HasFlag(OrByte(a, b), 0x80) <==> HasFlag(a, 0x80) || HasFlag(b, 0x80)
    ensures HasFlag(0x80, 0x80) && !HasFlag(0, 0x80)
  {
  }

  lemma ModeType(mode: nat)
    ensures mode / 0x1000 % 16 == 4 <==> 0x4000 <= mode % 0x10000 < 0x5000
  {
    var high, low := mode / 0x10000, mode % 0x10000;
    assert mode / 0x1000 == 16 * high + low / 0x1000;
    assert mode / 0x1000 % 16 == low / 0x1000;
  }

  /** An entry is a directory exactly when one of its records makes it one. */
  lemma {:induction false} DirectoryIff(decode: NameDecoder, rs: seq<SubRecord>, e: EggFileEntry)
    ensures SubsMeaning(decode, rs, e).IsDirectory()
       <==> e.IsDirectory() || exists r :: r in rs && MakesDirectory(r)
    decreases |rs|
  {
    hide SubMeaning, EggFileEntry.IsDirectory, MakesDirectory;
    if rs != [] {
      OneRecord(decode, rs[0], e);
      DirectoryIff(decode, rs[1..], SubMeaning(decode, rs[0], e));
      assert forall r :: r in rs <==> r == rs[0] || r in rs[1..];
    }
  }

  lemma OneRecord(decode: NameDecoder, r: SubRecord, e: EggFileEntry)
    ensures SubMeaning(decode, r, e).IsDirectory() <==> e.IsDirectory() || MakesDirectory(r)
  {
    hide NormalizePath, HasFlag, OrByte;
    match r {
      case WindowsRecord(_, _, attr, _) => FlagKept(e.fileAttr, attr);
      case PosixRecord(_, mode, _, _, _, _) =>
        ModeType(mode);
        FlagKept(e.fileAttr, 0x80);
      case _ =>
    }
  }

  /** Through the archive: a directory is read back as one, and nothing else is. */
  lemma DirectoryReadBack(decode: NameDecoder, a: ArchiveValue, k: nat)
    requires WellFormed(a) && k < |Files(a.body)|
    ensures Open(decode, Serialized(a)).Ok? && k < |Open(decode, Serialized(a)).value.entries|
    ensures Open(decode, Serialized(a)).value.entries[k].IsDirectory()
       <==> exists r :: r in Files(a.body)[k].subs && MakesDirectory(r)
  {
    hide Open, Serialized, WellFormed, Files, RawEntries, SubsMeaning, MakesDirectory, HasFlag, ResolvedName;
    ReadBackRaw(decode, a);
    var f := Files(a.body)[k];
    DirectoryIff(decode, f.subs, EmptyEntry(f.id, f.size));
    FlagKept(0, 0);
  }

  /** The time that counts: the last Windows time, and without one the first POSIX time, converted. */
  function TimeIn(rs: seq<SubRecord>, found: Option<nat>): Option<nat> {
    if rs == [] then found
    else match rs[|rs| - 1]
      case WindowsRecord(_, time, _, _) => Some(time)
      case PosixRecord(_, _, _, _, mtime, _) =>
        var earlier := TimeIn(rs[..|rs| - 1], found);
        if earlier.Some? then earlier else Some(Calendar.UnixToFiletime(mtime))
      case _ => TimeIn(rs[..|rs| - 1], found)
  }

  lemma {:induction false} TimeMore(r: SubRecord, rs: seq<SubRecord>, found: Option<nat>)
    ensures TimeIn([r] + rs, found) == TimeIn(rs, TimeIn([r], found))
  {
    if rs == [] {
      assert [r] + rs == [r];
    } else {
      var shorter := rs[..|rs| - 1];
      TimeMore(r, shorter, found);
      assert ([r] + rs)[..|rs|] == [r] + shorter;
    }
  }

  lemma {:induction false} TimeIs(decode: NameDecoder, rs: seq<SubRecord>, e: EggFileEntry)
    ensures SubsMeaning(decode, rs, e).fileTime == TimeIn(rs, e.fileTime)
    decreases |rs|
  {
    hide NormalizePath, HasFlag, OrByte;
    if rs != [] {
      var r := rs[0];
      TimeIs(decode, rs[1..], SubMeaning(decode, r, e));
      TimeMore(r, rs[1..], e.fileTime);
      assert [r] + rs[1..] == rs && [r][..0] == [];
    }
  }
}
