/** src/archive.rs as it runs: methods that move a reader, each proved against the function on its bytes. */
module ArchiveReader {
  import opened Bytes
  import opened Errors
  import opened ArchiveFormat
  import opened VolumeReader
  import Calendar
  import Words

  /** Archives whose positions fit the signed 64-bit offsets of a seek. */
  ghost predicate Ready(r: MultiVolumeReader)
    reads r, r.Files()
  {
    r.Valid() && |r.Flat()| < TWO_63 / 2
  }

  // ---------- fields ----------

  /** `read_u16`, `read_u32`, `read_u64`. */
  method ReadNum(r: MultiVolumeReader, k: nat) returns (res: Result<nat>)
    requires Ready(r) && k > 0
    modifies r, r.Files()
    ensures Ready(r) && res == Num(r.Flat(), old(r.logicalPos), k)
    ensures res.Ok? ==> r.logicalPos == old(r.logicalPos) + k
  {
    hide LeValue, FlatOf;
    var buf := new byte[k];
    var ok := r.ReadExact(buf, 0, k);
    if !ok {
      return Err(Io);
    }
    assert buf[0..k] == buf[..];
    res := Ok(LeValue(buf[..]));
  }

  method ReadOctet(r: MultiVolumeReader) returns (res: Result<byte>)
    requires Ready(r)
    modifies r, r.Files()
    ensures Ready(r) && res == Octet(r.Flat(), old(r.logicalPos))
    ensures res.Ok? ==> r.logicalPos == old(r.logicalPos) + 1
  {
    hide FlatOf;
    var buf := new byte[1];
    var ok := r.ReadExact(buf, 0, 1);
    if !ok {
      return Err(Io);
    }
    assert buf[0] == buf[0..1][0];
    res := Ok(buf[0]);
  }

  method ReadWord(r: MultiVolumeReader) returns (res: Result<bv32>)
    requires Ready(r)
    modifies r, r.Files()
    ensures Ready(r) && res == Word(r.Flat(), old(r.logicalPos))
    ensures res.Ok? ==> r.logicalPos == old(r.logicalPos) + 4
  {
    hide FlatOf, Words.WordOf;
    var buf := new byte[4];
    var ok := r.ReadExact(buf, 0, 4);
    if !ok {
      return Err(Io);
    }
    ghost var t := buf[0..4];
    assert t[0] == buf[0] && t[1] == buf[1] && t[2] == buf[2] && t[3] == buf[3];
    res := Ok(Words.WordOf(buf[0], buf[1], buf[2], buf[3]));
  }

  /** `read_exact_capped`. */
  method ReadExactly(r: MultiVolumeReader, n: nat) returns (res: Result<bytes>)
    requires Ready(r)
    modifies r, r.Files()
    ensures Ready(r) && res == Exactly(r.Flat(), old(r.logicalPos), n)
    ensures res.Ok? ==> r.logicalPos == old(r.logicalPos) + n
  {
    hide FlatOf;
    var got := r.ReadUpTo(n);
    if |got| != n {
      return Err(CorruptedFile);
    }
    res := Ok(got);
  }

  method ReadExtra(r: MultiVolumeReader) returns (res: Result<Extra>)
    requires Ready(r)
    modifies r, r.Files()
    ensures Ready(r) && res == ExtraField(r.Flat(), old(r.logicalPos))
    ensures res.Ok? ==> r.logicalPos == res.value.next && res.value.size < TWO_32
  {
    hide FlatOf, Num, Octet, HasFlag;
    var flags :- ReadOctet(r);
    NumFits(r.Flat(), r.logicalPos, 4);
    NumFits(r.Flat(), r.logicalPos, 2);
    if HasFlag(flags, 1) {
      var size :- ReadNum(r, 4);
      res := Ok(Extra(flags, size, r.logicalPos));
    } else {
      var size :- ReadNum(r, 2);
      res := Ok(Extra(flags, size, r.logicalPos));
    }
  }

  lemma NumFits(s: bytes, p: nat, k: nat)
    requires k == 2 || k == 4
    ensures Num(s, p, k).Ok? ==> Num(s, p, k).value < TWO_32
  {
    hide LeValue, Pow256;
    FieldSizes();
    if p + k <= |s| {
      LeValueBound(s[p..p + k]);
    }
  }

  /** `skip`: the position may leave the archive; the next read then fails. */
  method Skip(r: MultiVolumeReader, n: nat)
    requires Ready(r) && r.logicalPos <= |r.Flat()| && n < TWO_32
    modifies r, r.Files()
    ensures Ready(r) && r.logicalPos == old(r.logicalPos) + n
  {
    hide FlatOf;
    var at := r.Seek(FromCurrent(n));
  }

  method SkipSized(r: MultiVolumeReader) returns (res: Result<nat>)
    requires Ready(r)
    modifies r, r.Files()
    ensures Ready(r) && res == SkipRecord(r.Flat(), old(r.logicalPos))
    ensures res.Ok? ==> r.logicalPos == res.value
  {
    hide FlatOf, ExtraField;
    var e :- ReadExtra(r);
    Skip(r, e.size);
    res := Ok(r.logicalPos);
  }

  // ---------- sections ----------

  /** The prefix loop of `open`. */
  method ReadPrefix(r: MultiVolumeReader) returns (res: Result<Prefix>)
    requires Ready(r)
    modifies r, r.Files()
    ensures Ready(r)
    ensures var spec := ParsePrefix(r.Flat(), old(r.logicalPos), Prefix(false, None));
      if spec.Err? then res == Err(spec.error) else res == Ok(spec.value.0) && r.logicalPos == spec.value.1
  {
    hide FlatOf, Num, ExtraField, SkipRecord;
    ghost var spec := ParsePrefix(r.Flat(), r.logicalPos, Prefix(false, None));
    var isSolid := false;
    var split: Option<SplitInfo> := None;
    while true
      invariant Ready(r) && ParsePrefix(r.Flat(), r.logicalPos, Prefix(isSolid, split)) == spec
      decreases |r.Flat()| - r.logicalPos
    {
      var sig :- ReadNum(r, 4);
      if sig == SIG_SPLIT_INFO {
        var e :- ReadExtra(r);
        var prev :- ReadNum(r, 4);
        var next :- ReadNum(r, 4);
        Skip(r, Minus(e.size, 8));
        split := Some(SplitInfo(prev, next));
      } else if sig == SIG_SOLID_INFO {
        var _ :- SkipSized(r);
        isSolid := true;
      } else if sig == SIG_SKIP || sig == SIG_GLOBAL_ENCRYPT {
        var _ :- SkipSized(r);
      } else if sig == SIG_END_MARKER {
        return Ok(Prefix(isSolid, split));
      } else {
        return Err(CorruptedFile);
      }
    }
  }

  /** Whether an end marker stands at `at`; the reader returns to `start`. */
  method LandsOnEndMarker(r: MultiVolumeReader, start: nat, at: nat) returns (ok: bool)
    requires Ready(r) && start <= |r.Flat()| && at < TWO_63
    modifies r, r.Files()
    ensures Ready(r) && r.logicalPos == start && ok == EndsAt(r.Flat(), at)
  {
    hide FlatOf, Num;
    var there := r.Seek(FromStart(at));
    var sig := ReadNum(r, 4);
    ok := sig == Ok(SIG_END_MARKER);
    var back := r.Seek(FromStart(start));
  }

  /** `read_encrypt_payload`. */
  method ReadEncryptPayload(r: MultiVolumeReader, cipher: EncryptionMethod, declared: nat) returns (res: Result<bytes>)
    requires Ready(r) && r.logicalPos <= |r.Flat()| && declared < TWO_32
    modifies r, r.Files()
    ensures Ready(r)
    ensures var n := PayloadLength(r.Flat(), old(r.logicalPos), cipher.PayloadLengths(), declared);
      && res == Exactly(r.Flat(), old(r.logicalPos), n)
      && (res.Ok? ==> r.logicalPos == old(r.logicalPos) + n)
  {
    hide FlatOf, EndsAt;
    var start := r.logicalPos;
    var candidates := cipher.PayloadLengths();
    if declared in candidates {
      var trusted := LandsOnEndMarker(r, start, start + declared);
      if trusted {
        res := ReadExactly(r, declared);
        return;
      }
    }
    var i := 0;
    while i < |candidates|
      invariant 0 <= i <= |candidates| && Ready(r) && r.logicalPos == start
      invariant FirstLanding(r.Flat(), start, candidates[i..], declared)
             == PayloadLength(r.Flat(), start, candidates, declared)
    {
      assert candidates[i..][1..] == candidates[i + 1..];
      var lands := LandsOnEndMarker(r, start, start + candidates[i]);
      if lands {
        res := ReadExactly(r, candidates[i]);
        return;
      }
      i := i + 1;
    }
    res := ReadExactly(r, declared);
  }

  /** What a sub-header method leaves behind, against the function it follows. */
  ghost predicate Follows(spec: Result<(Header, nat)>, res: Result<Header>, pos: nat) {
    if spec.Err? then res == Err(spec.error) else res == Ok(spec.value.0) && pos == spec.value.1
  }

  method ReadName(decode: NameDecoder, r: MultiVolumeReader, h: Header) returns (res: Result<Header>)
    requires Ready(r)
    modifies r, r.Files()
    ensures Ready(r) && Follows(ParseName(decode, r.Flat(), old(r.logicalPos), h), res, r.logicalPos)
  {
    hide FlatOf, Num, ExtraField, Exactly, NormalizePath, HasFlag;
    var e :- ReadExtra(r);
    var remaining := e.size;
    var locale: Option<nat> := None;
    if HasFlag(e.flags, 0x08) {
      var lc :- ReadNum(r, 2);
      if remaining < 2 {
        return Err(CorruptedFile);
      }
      remaining := remaining - 2;
      locale := Some(lc);
    }
    var parent := h.entry.parentId;
    if HasFlag(e.flags, 0x10) {
      var id :- ReadNum(r, 4);
      if remaining < 4 {
        return Err(CorruptedFile);
      }
      remaining := remaining - 4;
      parent := Some(id);
    }
    var name :- ReadExactly(r, remaining);
    var text := NormalizePath(decode(HasFlag(e.flags, 0x08), locale, name));
    res := Ok(h.(entry := h.entry.(fileName := text, parentId := parent)));
  }

  method ReadWindows(r: MultiVolumeReader, h: Header) returns (res: Result<Header>)
    requires Ready(r)
    modifies r, r.Files()
    ensures Ready(r) && Follows(ParseWindows(r.Flat(), old(r.logicalPos), h), res, r.logicalPos)
  {
    hide FlatOf, Num, ExtraField, OrByte, Octet;
    var e :- ReadExtra(r);
    if e.size < 9 {
      return Err(CorruptedFile);
    }
    var time :- ReadNum(r, 8);
    var attr :- ReadOctet(r);
    Skip(r, e.size - 9);
    res := Ok(h.(entry := h.entry.(fileTime := Some(time), fileAttr := OrByte(h.entry.fileAttr, attr))));
  }

  method ReadPosix(r: MultiVolumeReader, h: Header) returns (res: Result<Header>)
    requires Ready(r)
    modifies r, r.Files()
    ensures Ready(r) && Follows(ParsePosix(r.Flat(), old(r.logicalPos), h), res, r.logicalPos)
  {
    hide FlatOf, Num, ExtraField, OrByte;
    var e :- ReadExtra(r);
    if e.size < 20 {
      return Err(CorruptedFile);
    }
    var mode :- ReadNum(r, 4);
    var uid :- ReadNum(r, 4);
    var gid :- ReadNum(r, 4);
    var mtime :- ReadNum(r, 8);
    Skip(r, e.size - 20);
    var attr := h.entry.fileAttr;
    if mode / 0x1000 % 16 == 4 {
      attr := OrByte(attr, 0x80);
    }
    var time := h.entry.fileTime;
    if time.None? {
      time := Some(Calendar.UnixToFiletime(mtime));
    }
    res := Ok(h.(entry := h.entry.(fileAttr := attr, fileTime := time)));
  }

  method ReadEncrypt(r: MultiVolumeReader, h: Header) returns (res: Result<Header>)
    requires Ready(r)
    modifies r, r.Files()
    ensures Ready(r) && Follows(ParseEncrypt(r.Flat(), old(r.logicalPos), h), res, r.logicalPos)
  {
    hide FlatOf, Num, ExtraField, PayloadLength, Exactly;
    var e :- ReadExtra(r);
    if e.size == 0 {
      return Err(CorruptedFile);
    }
    var code :- ReadNum(r, 1);
    var cipher := EncryptionFromByte(code);
    if cipher.UnknownEncryption? {
      return Err(UnsupportedEncryption(cipher.code));
    }
    var data :- ReadEncryptPayload(r, cipher, e.size - 1);
    res := Ok(Header(h.entry.(encryptInfo := Some(EncryptInfo(cipher, data))), true));
  }

  method ReadSub(decode: NameDecoder, r: MultiVolumeReader, sig: nat, h: Header) returns (res: Result<Header>)
    requires Ready(r)
    modifies r, r.Files()
    ensures Ready(r) && Follows(ParseSub(decode, r.Flat(), old(r.logicalPos), sig, h), res, r.logicalPos)
  {
    hide FlatOf, ParseName, ParseWindows, ParsePosix, ParseEncrypt, SkipRecord;
    if sig == SIG_FILENAME {
      res := ReadName(decode, r, h);
    } else if sig == SIG_COMMENT {
      var _ :- SkipSized(r);
      res := Ok(h);
    } else if sig == SIG_WINDOWS_FILE_INFO {
      res := ReadWindows(r, h);
    } else if sig == SIG_POSIX_FILE_INFO {
      res := ReadPosix(r, h);
    } else if sig == SIG_ENCRYPT_INFO {
      res := ReadEncrypt(r, h);
    } else {
      res := Err(CorruptedFile);
    }
  }

  /** The sub-header loop of `parse_file_entry`. */
  method ReadSubs(decode: NameDecoder, r: MultiVolumeReader, start: Header) returns (res: Result<Header>)
    requires Ready(r)
    modifies r, r.Files()
    ensures Ready(r) && Follows(ParseSubs(decode, r.Flat(), old(r.logicalPos), start), res, r.logicalPos)
  {
    hide FlatOf, ParseSub, Num;
    ghost var spec := ParseSubs(decode, r.Flat(), r.logicalPos, start);
    var h := start;
    while true
      invariant Ready(r) && ParseSubs(decode, r.Flat(), r.logicalPos, h) == spec
      decreases |r.Flat()| - r.logicalPos
    {
      var sig :- ReadNum(r, 4);
      if sig == SIG_END_MARKER {
        return Ok(h);
      }
      h :- ReadSub(decode, r, sig, h);
    }
  }

  method ReadBlock(r: MultiVolumeReader) returns (res: Result<EggBlock>)
    requires Ready(r)
    modifies r, r.Files()
    ensures Ready(r)
    ensures var spec := ParseBlock(r.Flat(), old(r.logicalPos));
      if spec.Err? then res == Err(spec.error) else res == Ok(spec.value.0) && r.logicalPos == spec.value.1
  {
    hide FlatOf, Num, Word, Octet, CompressionFromByte, Tiled, AllWellFormed, MultiVolumeReader.Shaped;
    var code :- ReadNum(r, 1);
    var hint :- ReadOctet(r);
    var uncompressed :- ReadNum(r, 4);
    NumFits(r.Flat(), r.logicalPos, 4);
    var compressed :- ReadNum(r, 4);
    var crc :- ReadWord(r);
    var end :- ReadNum(r, 4);
    if end != SIG_END_MARKER {
      return Err(CorruptedFile);
    }
    var here := r.Seek(FromCurrent(0));
    Skip(r, compressed);
    res := Ok(EggBlock(CompressionFromByte(code), uncompressed, compressed, crc, here.value));
  }

  /** The block loop: the signature that ends it is read and sought back over. */
  method ReadBlocks(r: MultiVolumeReader) returns (res: Result<seq<EggBlock>>)
    requires Ready(r)
    modifies r, r.Files()
    ensures Ready(r)
    ensures var spec := ParseBlocks(r.Flat(), old(r.logicalPos), []);
      if spec.Err? then res == Err(spec.error) else res == Ok(spec.value.0) && r.logicalPos == spec.value.1
  {
    hide FlatOf, ParseBlock, Num;
    ghost var spec := ParseBlocks(r.Flat(), r.logicalPos, []);
    var blocks: seq<EggBlock> := [];
    while true
      invariant Ready(r) && ParseBlocks(r.Flat(), r.logicalPos, blocks) == spec
      decreases |r.Flat()| - r.logicalPos
    {
      var sig :- ReadNum(r, 4);
      if sig == SIG_BLOCK_HEADER {
        var block :- ReadBlock(r);
        blocks := blocks + [block];
      } else if EndsBlocks(sig) {
        var back := r.Seek(FromCurrent(-4));
        return Ok(blocks);
      } else {
        return Err(CorruptedFile);
      }
    }
  }

  /** `parse_file_entry`. */
  method ReadFileEntry(decode: NameDecoder, r: MultiVolumeReader, encrypted: bool) returns (res: Result<Header>)
    requires Ready(r)
    modifies r, r.Files()
    ensures Ready(r) && Follows(ParseFileEntry(decode, r.Flat(), old(r.logicalPos), encrypted), res, r.logicalPos)
  {
    hide FlatOf, ParseSubs, ParseBlocks, Num;
    var id :- ReadNum(r, 4);
    var size :- ReadNum(r, 8);
    var h :- ReadSubs(decode, r, Header(EmptyEntry(id, size), encrypted));
    var blocks :- ReadBlocks(r);
    res := Ok(h.(entry := h.entry.(blocks := blocks)));
  }

  /** The entry loop of `open`, with its look past an end marker. */
  method ReadBody(decode: NameDecoder, r: MultiVolumeReader) returns (res: Result<Body>)
    requires Ready(r)
    modifies r, r.Files()
    ensures Ready(r) && res == ParseBody(decode, r.Flat(), old(r.logicalPos), Body([], false))
  {
    hide FlatOf, ParseFileEntry, SkipRecord, Num, ContinuesAfterEnd;
    ghost var spec := ParseBody(decode, r.Flat(), r.logicalPos, Body([], false));
    var entries: seq<EggFileEntry> := [];
    var encrypted := false;
    while true
      invariant Ready(r) && ParseBody(decode, r.Flat(), r.logicalPos, Body(entries, encrypted)) == spec
      decreases |r.Flat()| - r.logicalPos
    {
      var sig :- ReadNum(r, 4);
      if sig == SIG_FILE_HEADER {
        var h :- ReadFileEntry(decode, r, encrypted);
        encrypted := h.encrypted;
        entries := entries + [h.entry];
      } else if sig == SIG_COMMENT || sig == SIG_DUMMY {
        var _ :- SkipSized(r);
      } else if sig == SIG_END_MARKER {
        var next := ReadNum(r, 4);
        var goesOn := ContinuesAfterEnd(next);
        ContinuesOnlyAfterRead(next);
        if next.Err? {
          return Ok(Body(entries, encrypted));
        }
        var back := r.Seek(FromCurrent(-4));
        if !goesOn {
          return Ok(Body(entries, encrypted));
        }
      } else {
        return Err(CorruptedFile);
      }
    }
  }

  lemma ContinuesOnlyAfterRead(r: Result<nat>)
    ensures ContinuesAfterEnd(r) ==> r.Ok?
  {
  }

  /** The index of entries by file ID; a later entry takes the place of an earlier one with its ID. */
  method IndexById(entries: seq<EggFileEntry>) returns (byId: map<nat, nat>)
    ensures forall id: nat :: id in byId <==> IndexOfId(entries, id) < |entries|
    ensures forall id: nat :: id in byId ==> byId[id] == IndexOfId(entries, id)
  {
    byId := map[];
    for i := 0 to |entries|
      invariant forall id: nat :: id in byId <==> IndexBelow(entries, id, i) < |entries|
      invariant forall id: nat :: id in byId ==> byId[id] == IndexBelow(entries, id, i)
    {
      byId := byId[entries[i].fileId := i];
    }
  }

  /** `resolve_relative_paths`: every new name is computed from the old ones, then all are written. */
  method ResolveRelativePaths(entries: array<EggFileEntry>)
    modifies entries
    ensures entries[..] == Resolved(old(entries[..]))
  {
    hide ResolvedName;
    ghost var was := entries[..];
    var names := PrefixedNames(entries);
    for i := 0 to entries.Length
      invariant forall k :: 0 <= k < i ==> entries[k] == was[k].(fileName := ResolvedName(was, k))
      invariant forall k :: i <= k < entries.Length ==> entries[k] == was[k]
    {
      if names[i].Some? {
        entries[i] := entries[i].(fileName := names[i].value);
      }
    }
    assert entries[..] == Resolved(was);
  }

  /** The first pass: the new name of every entry that gets one, from the names as they are. */
  method PrefixedNames(entries: array<EggFileEntry>) returns (names: seq<Option<string>>)
    ensures |names| == entries.Length
    ensures forall k :: 0 <= k < entries.Length ==>
      ResolvedName(entries[..], k) == if names[k].Some? then names[k].value else entries[k].fileName
  {
    hide IndexOfId, TrimEnd;
    var byId := IndexById(entries[..]);
    names := [];
    for i := 0 to entries.Length
      invariant |names| == i
      invariant forall k :: 0 <= k < i ==>
        ResolvedName(entries[..], k) == if names[k].Some? then names[k].value else entries[k].fileName
    {
      var name: Option<string> := None;
      var parent := entries[i].parentId;
      if parent.Some? && parent.value in byId {
        var k := byId[parent.value];
        if k != i {
          var prefix := TrimEnd(entries[k].fileName);
          if prefix != "" {
            name := Some(prefix + "/" + entries[i].fileName);
          }
        }
      }
      names := names + [name];
    }
  }

  /** `EggArchive::open`: the archive the bytes stand for, whatever volumes they are spread over. */
  method OpenArchive(decode: NameDecoder, r: MultiVolumeReader) returns (res: Result<Archive>)
    requires Ready(r) && r.logicalPos == 0
    modifies r, r.Files()
    ensures Ready(r) && res == Open(decode, r.Flat())
  {
    hide FlatOf, ParsePrefix, ParseBody, Num, Resolved;
    var sig :- ReadNum(r, 4);
    if sig != SIG_EGG_HEADER {
      return Err(NotEggFile);
    }
    var version :- ReadNum(r, 2);
    var headerId :- ReadNum(r, 4);
    var reserved :- ReadNum(r, 4);
    var prefix :- ReadPrefix(r);
    var body :- ReadBody(decode, r);
    var entries := new EggFileEntry[|body.entries|](i requires 0 <= i < |body.entries| => body.entries[i]);
    assert entries[..] == body.entries;
    ResolveRelativePaths(entries);
    res := Ok(Archive(entries[..], body.encrypted, prefix.isSolid, headerId, prefix.split));
  }
}
