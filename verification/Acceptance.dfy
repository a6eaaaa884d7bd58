/** The converse of the round trip: whatever the parser accepts is the serialization of an archive value. */
module Acceptance {
  import opened Bytes
  import opened Errors
  import opened ArchiveFormat
  import opened ArchiveWriter
  import opened RoundTrip
  import Words

  // ---------- fields ----------

  lemma Joins(s: bytes, p: nat, a: bytes, b: bytes)
    requires HasAt(s, p, a) && HasAt(s, p + |a|, b)
    ensures HasAt(s, p, a + b)
  {
    var w := s[p..p + |a + b|];
    assert w[..|a|] == a && w[|a|..] == b;
  }

  lemma Taken(s: bytes, p: nat, n: nat)
    requires p + n <= |s|
    ensures HasAt(s, p, s[p..p + n])
  {
  }

  lemma NumWritten(s: bytes, p: nat, k: nat)
    requires Num(s, p, k).Ok?
    ensures HasAt(s, p, LeBytes(Num(s, p, k).value, k)) && Num(s, p, k).value < Pow256(k)
  {
    hide LeBytes, LeValue, Pow256;
    LeBytesOfValue(s[p..p + k]);
    LeValueBound(s[p..p + k]);
  }

  lemma SigWritten(s: bytes, p: nat)
    requires Num(s, p, 4).Ok?
    ensures HasAt(s, p, Sig(Num(s, p, 4).value))
  {
    hide HasAt, LeBytes, Num;
    NumWritten(s, p, 4);
  }

  lemma OctetWritten(s: bytes, p: nat)
    requires Octet(s, p).Ok?
    ensures HasAt(s, p, [Octet(s, p).value])
  {
  }

  lemma WordWritten(s: bytes, p: nat)
    requires Word(s, p).Ok?
    ensures HasAt(s, p, Words.BytesOf(Word(s, p).value))
  {
    hide Words.BytesOf, Words.WordOf;
    Words.BytesOfWordOf(s[p], s[p + 1], s[p + 2], s[p + 3]);
    assert s[p..p + 4] == [s[p], s[p + 1], s[p + 2], s[p + 3]];
  }

  lemma ExtraWritten(s: bytes, p: nat)
    requires ExtraField(s, p).Ok?
    ensures var e := ExtraField(s, p).value;
      && HasAt(s, p, ExtraBytes(e.flags, e.size)) && SizeFits(e.flags, e.size)
      && e.next == p + |ExtraBytes(e.flags, e.size)|
  {
    hide HasAt, LeBytes, Num, HasFlag, Octet;
    var e := ExtraField(s, p).value;
    var k := if HasFlag(e.flags, 1) then 4 else 2;
    FieldSizes();
    OctetWritten(s, p);
    NumWritten(s, p + 1, k);
    Joins(s, p, [e.flags], LeBytes(e.size, k));
  }

  lemma DataWritten(s: bytes, p: nat) returns (flags: byte, data: bytes)
    requires SkipRecord(s, p).Ok? && SkipRecord(s, p).value <= |s|
    ensures HasAt(s, p, DataBytes(flags, data)) && SizeFits(flags, |data|)
    ensures SkipRecord(s, p).value == p + |DataBytes(flags, data)|
  {
    hide HasAt, ExtraBytes, ExtraField;
    var e := ExtraField(s, p).value;
    ExtraWritten(s, p);
    Taken(s, e.next, e.size);
    flags, data := e.flags, s[e.next..e.next + e.size];
    Joins(s, p, ExtraBytes(flags, |data|), data);
  }

  // ---------- prefix ----------

  lemma SplitWritten(s: bytes, p: nat, acc: Prefix) returns (r: PrefixRecord)
    requires ParsePrefix(s, p, acc).Ok? && Num(s, p, 4).value == SIG_SPLIT_INFO
    ensures r.SplitRecord? && PrefixFits(r) && HasAt(s, p, PrefixBytes(r))
  {
    hide HasAt, LeBytes, Num, ExtraBytes, ExtraField;
    FieldSizes();
    var e := ExtraField(s, p + 4).value;
    var q, n := e.next + 8, Minus(e.size, 8);
    r := SplitRecord(e.flags, e.size, Num(s, e.next, 4).value, Num(s, e.next + 4, 4).value, s[q..q + n]);
    SigWritten(s, p);
    ExtraWritten(s, p + 4);
    NumWritten(s, e.next, 4);
    NumWritten(s, e.next + 4, 4);
    Taken(s, q, n);
    Joins(s, e.next + 4, LeBytes(r.nextId, 4), r.padding);
    Joins(s, e.next, LeBytes(r.prevId, 4), LeBytes(r.nextId, 4) + r.padding);
    var fields := LeBytes(r.prevId, 4) + (LeBytes(r.nextId, 4) + r.padding);
    Joins(s, p + 4, ExtraBytes(e.flags, e.size), fields);
    Joins(s, p, Sig(SIG_SPLIT_INFO), ExtraBytes(e.flags, e.size) + fields);
  }

  lemma PrefixDataWritten(s: bytes, p: nat, acc: Prefix) returns (r: PrefixRecord)
    requires ParsePrefix(s, p, acc).Ok?
    requires Num(s, p, 4).value != SIG_SPLIT_INFO && Num(s, p, 4).value != SIG_END_MARKER
    ensures !r.SplitRecord? && PrefixFits(r) && HasAt(s, p, PrefixBytes(r))
  {
    hide HasAt, LeBytes, Num, SkipRecord, DataBytes;
    var sig := Num(s, p, 4).value;
    SigWritten(s, p);
    var flags, data := DataWritten(s, p + 4);
    r := if sig == SIG_SOLID_INFO then SolidRecord(flags, data)
         else if sig == SIG_SKIP then SkippedRecord(flags, data)
         else GlobalEncryptRecord(flags, data);
    Joins(s, p, Sig(sig), DataBytes(flags, data));
  }

  /** The prefix section, read back into its records. */
  lemma {:induction false} PrefixWritten(s: bytes, p: nat, acc: Prefix) returns (rs: seq<PrefixRecord>)
    requires ParsePrefix(s, p, acc).Ok?
    ensures (forall r :: r in rs ==> PrefixFits(r)) && HasAt(s, p, PrefixSection(rs))
    ensures ParsePrefix(s, p, acc) == Ok((PrefixMeaning(rs, acc), p + |PrefixSection(rs)|))
    decreases |s| - p
  {
    hide HasAt, LeBytes, PrefixBytes, PrefixFits, ParsePrefix, PrefixMeaning;
    PrefixStarts(s, p, acc);
    if Num(s, p, 4).value == SIG_END_MARKER {
      rs := [];
      SigWritten(s, p);
    } else {
      var r;
      if Num(s, p, 4).value == SIG_SPLIT_INFO {
        r := SplitWritten(s, p, acc);
      } else {
        r := PrefixDataWritten(s, p, acc);
      }
      PrefixRecordAt(s, p, r, acc);
      RecordIsLong(s, p, r);
      var rest := PrefixWritten(s, p + |PrefixBytes(r)|, PrefixMeaning([r], acc));
      rs := [r] + rest;
      assert rs[1..] == rest && rs[0] == r;
      PrefixMeaningFirst(rs, acc);
      Joins(s, p, PrefixBytes(r), PrefixSection(rest));
    }
    PrefixAt(s, p, rs, acc);
  }

  lemma PrefixStarts(s: bytes, p: nat, acc: Prefix)
    requires ParsePrefix(s, p, acc).Ok?
    ensures Num(s, p, 4).Ok?
  {
  }

  lemma RecordIsLong(s: bytes, p: nat, r: PrefixRecord)
    requires HasAt(s, p, PrefixBytes(r))
    ensures |PrefixBytes(r)| >= 4 && p + 4 <= |s|
  {
    hide LeBytes, ExtraBytes, DataBytes;
  }

  // ---------- sub-headers ----------

  lemma LocaleWritten(s: bytes, e: Extra) returns (locale: nat)
    requires NameLocale(s, e).Ok? && e.next <= |s|
    ensures locale < TWO_16 && HasAt(s, e.next, LocaleBytes(e.flags, locale))
    ensures var n := |LocaleBytes(e.flags, locale)|;
      && n <= e.size && NameLocale(s, e).value.1 == e.next + n && NameLocale(s, e).value.2 == e.size - n
  {
    hide LeBytes, HasFlag, Num;
    FieldSizes();
    locale := 0;
    if HasFlag(e.flags, 0x08) {
      locale := Num(s, e.next, 2).value;
      NumWritten(s, e.next, 2);
    }
  }

  lemma ParentWritten(s: bytes, flags: byte, p: nat, left: nat, was: Option<nat>) returns (parent: nat)
    requires NameParent(s, flags, p, left, was).Ok? && p <= |s|
    ensures parent < TWO_32 && HasAt(s, p, ParentBytes(flags, parent))
    ensures var n := |ParentBytes(flags, parent)|;
      && n <= left && NameParent(s, flags, p, left, was).value.1 == p + n
      && NameParent(s, flags, p, left, was).value.2 == left - n
  {
    hide LeBytes, HasFlag, Num;
    FieldSizes();
    parent := 0;
    if HasFlag(flags, 0x10) {
      parent := Num(s, p, 4).value;
      NumWritten(s, p, 4);
    }
  }

  lemma NameWritten(decode: NameDecoder, s: bytes, p: nat, h: Header) returns (r: SubRecord)
    requires ParseName(decode, s, p, h).Ok? && ParseName(decode, s, p, h).value.1 <= |s|
    ensures r.NameRecord? && SubFits(r) && HasAt(s, p, SubPayload(r))
  {
    hide HasAt, LeBytes, ExtraField, ExtraBytes, HasFlag, Num, NormalizePath, NameLocale, NameParent, LocaleBytes,
      ParentBytes;
    var e := ExtraField(s, p).value;
    var (_, q, left) := NameLocale(s, e).value;
    var (_, at, size) := NameParent(s, e.flags, q, left, h.entry.parentId).value;
    ExtraWritten(s, p);
    var locale := LocaleWritten(s, e);
    var parent := ParentWritten(s, e.flags, q, left, h.entry.parentId);
    Taken(s, at, size);
    r := NameRecord(e.flags, locale, parent, s[at..at + size]);
    var l, n := LocaleBytes(e.flags, locale), ParentBytes(e.flags, parent);
    Joins(s, q, n, r.name);
    Joins(s, e.next, l, n + r.name);
    Joins(s, p, ExtraBytes(e.flags, e.size), l + (n + r.name));
  }

  lemma WindowsWritten(s: bytes, p: nat, h: Header) returns (r: SubRecord)
    requires ParseWindows(s, p, h).Ok? && ParseWindows(s, p, h).value.1 <= |s|
    ensures r.WindowsRecord? && SubFits(r) && HasAt(s, p, SubPayload(r))
  {
    hide HasAt, LeBytes, Num, ExtraBytes, ExtraField, Octet, OrByte;
    FieldSizes();
    var e := ExtraField(s, p).value;
    ExtraWritten(s, p);
    NumWritten(s, e.next, 8);
    OctetWritten(s, e.next + 8);
    Taken(s, e.next + 9, e.size - 9);
    r := WindowsRecord(
      e.flags, Num(s, e.next, 8).value, Octet(s, e.next + 8).value, s[e.next + 9..e.next + 9 + (e.size - 9)]);
    Joins(s, e.next + 8, [r.attr], r.padding);
    Joins(s, e.next, LeBytes(r.time, 8), [r.attr] + r.padding);
    Joins(s, p, ExtraBytes(e.flags, e.size), LeBytes(r.time, 8) + ([r.attr] + r.padding));
  }

  lemma PosixWritten(s: bytes, p: nat, h: Header) returns (r: SubRecord)
    requires ParsePosix(s, p, h).Ok? && ParsePosix(s, p, h).value.1 <= |s|
    ensures r.PosixRecord? && SubFits(r) && HasAt(s, p, SubPayload(r))
  {
    hide HasAt, LeBytes, Num, ExtraBytes, ExtraField, WithPosix;
    FieldSizes();
    var e := ExtraField(s, p).value;
    var q := e.next;
    ExtraWritten(s, p);
    NumWritten(s, q, 4);
    NumWritten(s, q + 4, 4);
    NumWritten(s, q + 8, 4);
    NumWritten(s, q + 12, 8);
    Taken(s, q + 20, e.size - 20);
    r := PosixRecord(
      e.flags, Num(s, q, 4).value, Num(s, q + 4, 4).value, Num(s, q + 8, 4).value, Num(s, q + 12, 8).value,
      s[q + 20..q + 20 + (e.size - 20)]);
    var t3 := LeBytes(r.mtime, 8) + r.padding;
    Joins(s, q + 12, LeBytes(r.mtime, 8), r.padding);
    Joins(s, q + 8, LeBytes(r.gid, 4), t3);
    Joins(s, q + 4, LeBytes(r.uid, 4), LeBytes(r.gid, 4) + t3);
    Joins(s, q, LeBytes(r.mode, 4), LeBytes(r.uid, 4) + (LeBytes(r.gid, 4) + t3));
    assert PosixFields(r) == LeBytes(r.mode, 4) + (LeBytes(r.uid, 4) + (LeBytes(r.gid, 4) + t3));
    Joins(s, p, ExtraBytes(e.flags, e.size), PosixFields(r));
  }

  /** One sub-header that is no encryption record. */
  lemma SubWritten(decode: NameDecoder, s: bytes, p: nat, sig: nat, h: Header) returns (r: SubRecord)
    requires sig != SIG_ENCRYPT_INFO
    requires ParseSub(decode, s, p, sig, h).Ok? && ParseSub(decode, s, p, sig, h).value.1 <= |s|
    ensures SubFits(r) && SubSig(r) == sig && HasAt(s, p, SubPayload(r))
  {
    hide HasAt, ParseName, ParseWindows, ParsePosix, SkipRecord, DataBytes;
    if sig == SIG_FILENAME {
      r := NameWritten(decode, s, p, h);
    } else if sig == SIG_COMMENT {
      var flags, data := DataWritten(s, p);
      r := CommentRecord(flags, data);
    } else if sig == SIG_WINDOWS_FILE_INFO {
      r := WindowsWritten(s, p, h);
    } else {
      r := PosixWritten(s, p, h);
    }
  }

  /** An encryption record is not forgotten. */
  lemma {:induction false} StaysEncrypted(decode: NameDecoder, s: bytes, p: nat, h: Header)
    requires ParseSubs(decode, s, p, h).Ok? && !ParseSubs(decode, s, p, h).value.0.encrypted
    ensures !h.encrypted
    ensures Num(s, p, 4).value != SIG_END_MARKER ==>
      Num(s, p, 4).value != SIG_ENCRYPT_INFO
      && var (h', q) := ParseSub(decode, s, p + 4, Num(s, p, 4).value, h).value;
        q <= |s| && ParseSubs(decode, s, p, h) == ParseSubs(decode, s, q, h')
    decreases |s| - p
  {
    hide Num, ParseName, ParseWindows, ParsePosix, SkipRecord;
    var sig := Num(s, p, 4).value;
    if sig != SIG_END_MARKER {
      var (h', q) := ParseSub(decode, s, p + 4, sig, h).value;
      StaysEncrypted(decode, s, q, h');
      if sig != SIG_ENCRYPT_INFO {
        SameFlag(decode, s, p + 4, sig, h);
      }
    }
  }

  lemma SameFlag(decode: NameDecoder, s: bytes, p: nat, sig: nat, h: Header)
    requires sig != SIG_ENCRYPT_INFO && ParseSub(decode, s, p, sig, h).Ok?
    ensures ParseSub(decode, s, p, sig, h).value.0.encrypted == h.encrypted
  {
    hide Num, ExtraField, SkipRecord, NameLocale, NameParent, WithPosix, NormalizePath, OrByte, Exactly;
  }

  /** The sub-headers of a file without an encryption record. */
  lemma {:induction false} SubsWritten(decode: NameDecoder, s: bytes, p: nat, h: Header) returns (rs: seq<SubRecord>)
    requires ParseSubs(decode, s, p, h).Ok? && !ParseSubs(decode, s, p, h).value.0.encrypted
    ensures (forall r :: r in rs ==> SubFits(r)) && HasAt(s, p, SubSection(rs, None))
    ensures ParseSubs(decode, s, p, h)
         == Ok((h.(entry := SubsMeaning(decode, rs, h.entry)), p + |SubSection(rs, None)|))
    decreases |s| - p
  {
    hide HasAt, LeBytes, SubFits, SubMeaning, ParseSubs, ParseSub, SubPayload, Num, SubsMeaning;
    StaysEncrypted(decode, s, p, h);
    SubsStart(decode, s, p, h);
    var sig := Num(s, p, 4).value;
    SigWritten(s, p);
    if sig == SIG_END_MARKER {
      rs := [];
      NoSubs();
    } else {
      var r := SubWritten(decode, s, p + 4, sig, h);
      Joins(s, p, Sig(sig), SubPayload(r));
      SubAt(decode, s, p + 4, r, h);
      var (h', q) := ParseSub(decode, s, p + 4, sig, h).value;
      var rest := SubsWritten(decode, s, q, h');
      rs := [r] + rest;
      assert rs[1..] == rest && rs[0] == r;
      Joins(s, p, SubRecordBytes(r), SubSection(rest, None));
      assert SubSection(rs, None) == SubRecordBytes(r) + SubSection(rest, None);
    }
    SubsAt(decode, s, p, rs, None, h);
  }

  lemma NoSubs()
    ensures SubSection([], None) == Sig(SIG_END_MARKER)
  {
    hide LeBytes;
  }

  lemma SubsStart(decode: NameDecoder, s: bytes, p: nat, h: Header)
    requires ParseSubs(decode, s, p, h).Ok?
    ensures Num(s, p, 4).Ok? && p + 4 <= |s|
    ensures Num(s, p, 4).value != SIG_END_MARKER ==>
      ParseSub(decode, s, p + 4, Num(s, p, 4).value, h).Ok?
      && ParseSub(decode, s, p + 4, Num(s, p, 4).value, h).value.1 > p + 4
  {
    hide ParseSub;
  }

  // ---------- blocks ----------

  lemma BlockWritten(s: bytes, p: nat) returns (b: BlockRecord)
    requires ParseBlock(s, p).Ok? && ParseBlock(s, p).value.1 <= |s|
    ensures BlockFits(b) && HasAt(s, p, BlockHead(b) + b.data) && ParseBlock(s, p).value.1 == p + 18 + |b.data|
  {
    hide HasAt, LeBytes, Num, Octet, Word, Words.BytesOf, MethodByte;
    FieldSizes();
    var m, size := Num(s, p, 1).value, Num(s, p + 6, 4).value;
    NumWritten(s, p, 1);
    OctetWritten(s, p + 1);
    NumWritten(s, p + 2, 4);
    NumWritten(s, p + 6, 4);
    WordWritten(s, p + 10);
    SigWritten(s, p + 14);
    Taken(s, p + 18, size);
    MethodWritten(m);
    b := BlockRecord(
      CompressionFromByte(m), Octet(s, p + 1).value, Num(s, p + 2, 4).value, Word(s, p + 10).value,
      s[p + 18..p + 18 + size]);
    var t5 := Sig(SIG_END_MARKER);
    var t4 := Words.BytesOf(b.crc) + t5;
    var t3 := LeBytes(size, 4) + t4;
    var t2 := LeBytes(b.uncompressedSize, 4) + t3;
    Joins(s, p + 10, Words.BytesOf(b.crc), t5);
    Joins(s, p + 6, LeBytes(size, 4), t4);
    Joins(s, p + 2, LeBytes(b.uncompressedSize, 4), t3);
    Joins(s, p + 1, [b.hint], t2);
    Joins(s, p, LeBytes(m, 1), [b.hint] + t2);
    assert BlockHead(b) == LeBytes(m, 1) + ([b.hint] + t2);
    Joins(s, p, BlockHead(b), b.data);
  }

  /** Every byte stands for a compression method. */
  lemma MethodWritten(n: nat)
    requires n < 256
    ensures MethodByte(CompressionFromByte(n)) == n
    ensures CompressionFromByte(n).UnknownCompression? ==> 4 < CompressionFromByte(n).code < 256
  {
  }

  lemma {:induction false} BlocksWritten(s: bytes, p: nat, acc: seq<EggBlock>)
    returns (bs: seq<BlockRecord>, sig: nat)
    requires ParseBlocks(s, p, acc).Ok?
    ensures (forall b :: b in bs ==> BlockFits(b)) && EndsBlocks(sig)
    ensures HasAt(s, p, BlockSection(bs)) && HasAt(s, p + |BlockSection(bs)|, Sig(sig))
    ensures ParseBlocks(s, p, acc) == Ok((acc + BlocksMeaning(bs, p), p + |BlockSection(bs)|))
    decreases |s| - p
  {
    hide HasAt, LeBytes, BlockBytes, BlockFits, ParseBlocks, ParseBlock, Num, BlocksMeaning;
    BlocksStart(s, p, acc);
    SigWritten(s, p);
    sig := Num(s, p, 4).value;
    if sig == SIG_BLOCK_HEADER {
      var b := BlockWritten(s, p + 4);
      Joins(s, p, Sig(sig), BlockHead(b) + b.data);
      BlockJoined(b);
      BlockRecordAt(s, p, b, acc);
      var rest;
      rest, sig := BlocksWritten(
        s, p + 22 + |b.data|, acc + [EggBlock(b.compression, b.uncompressedSize, |b.data|, b.crc, p + 22)]);
      bs := [b] + rest;
      assert bs[1..] == rest && bs[0] == b;
      Joins(s, p, BlockBytes(b), BlockSection(rest));
    } else {
      bs := [];
      NothingAt(s, p);
    }
    BlocksAt(s, p, bs, sig, acc);
  }

  lemma NothingAt(s: bytes, p: nat)
    requires p <= |s|
    ensures HasAt(s, p, [])
  {
  }

  lemma BlockJoined(b: BlockRecord)
    ensures Sig(SIG_BLOCK_HEADER) + (BlockHead(b) + b.data) == BlockBytes(b)
  {
  }

  lemma BlocksStart(s: bytes, p: nat, acc: seq<EggBlock>)
    requires ParseBlocks(s, p, acc).Ok?
    ensures Num(s, p, 4).Ok? && p + 4 <= |s|
    ensures Num(s, p, 4).value != SIG_BLOCK_HEADER ==> EndsBlocks(Num(s, p, 4).value)
    ensures Num(s, p, 4).value == SIG_BLOCK_HEADER ==>
      ParseBlock(s, p + 4).Ok? && ParseBlock(s, p + 4).value.1 <= |s|
  {
    hide ParseBlock;
  }

  // ---------- body ----------

  lemma FileWritten(decode: NameDecoder, s: bytes, p: nat, encrypted: bool) returns (f: FileRecord, sig: nat)
    requires ParseFileEntry(decode, s, p, encrypted).Ok?
    requires !ParseFileEntry(decode, s, p, encrypted).value.0.encrypted
    ensures !encrypted && FileFits(f) && f.encrypt == None && EndsBlocks(sig)
    ensures HasAt(s, p, FileBytes(f)) && HasAt(s, p + |FileBytes(f)|, Sig(sig))
  {
    hide HasAt, LeBytes, Num, SubSection, BlockSection, ParseSubs, ParseBlocks, SubsMeaning, BlocksMeaning;
    FieldSizes();
    var id, size := Num(s, p, 4).value, Num(s, p + 4, 8).value;
    NumWritten(s, p, 4);
    NumWritten(s, p + 4, 8);
    var h := Header(EmptyEntry(id, size), encrypted);
    StaysEncrypted(decode, s, p + 12, h);
    var subs := SubsWritten(decode, s, p + 12, h);
    var q := p + 12 + |SubSection(subs, None)|;
    var blocks;
    blocks, sig := BlocksWritten(s, q, []);
    f := FileRecord(id, size, subs, None, blocks);
    Joins(s, p + 12, SubSection(subs, None), BlockSection(blocks));
    Joins(s, p + 4, LeBytes(size, 8), SubSection(subs, None) + BlockSection(blocks));
    Joins(s, p, LeBytes(id, 4), LeBytes(size, 8) + (SubSection(subs, None) + BlockSection(blocks)));
  }

  /** A body without encryption; its records end where a trailer begins. */
  lemma {:induction false} BodyWritten(decode: NameDecoder, s: bytes, p: nat, b: Body) returns (rs: seq<BodyRecord>)
    requires ParseBody(decode, s, p, b).Ok? && !ParseBody(decode, s, p, b).value.encrypted
    ensures !b.encrypted
    ensures (forall r :: r in rs ==> BodyFits(r) && Plainly(r)) && BoundariesInside(rs)
    ensures HasAt(s, p, BodySection(rs)) && !ContinuesAfterEnd(Num(s, p + |BodySection(rs)|, 4))
    ensures Num(s, p, 4).Ok?
    ensures Num(s, p, 4).value != SIG_END_MARKER ==> rs != [] && !rs[0].VolumeBoundary?
    decreases |s| - p
  {
    hide HasAt, LeBytes, Num, BodyBytes, BodyFits, ContinuesAfterEnd, ParseBody, BoundariesInside, Plainly;
    hide Leads;
    BodyStarts(decode, s, p, b);
    BodySigs(decode, s, p, b);
    SigWritten(s, p);
    var sig := Num(s, p, 4).value;
    if sig == SIG_END_MARKER && !ContinuesAfterEnd(Num(s, p + 4, 4)) {
      rs := [];
      NoBoundary();
    } else {
      var r, b' := VolumeBoundary, b;
      if sig == SIG_END_MARKER {
        BoundaryWritten(decode, s, p, b);
      } else if sig == SIG_FILE_HEADER {
        r, b' := FileRecordWritten(decode, s, p, b);
      } else {
        r := DataRecordWritten(decode, s, p, b);
      }
      LeadsOn(decode, s, p, b, r, b');
      var q := p + |BodyBytes(r)|;
      var rest := BodyWritten(decode, s, q, b');
      rs := [r] + rest;
      assert rs[1..] == rest && rs[0] == r;
      Joins(s, p, BodyBytes(r), BodySection(rest));
      OneBoundary(s, q, r, rest);
    }
  }

  /** No record of this file is an encryption record. */
  predicate Plainly(r: BodyRecord) {
    r.FileBody? ==> r.file.encrypt == None
  }

  lemma NoBoundary()
    ensures BoundariesInside([])
  {
  }

  lemma OneBoundary(s: bytes, q: nat, r: BodyRecord, rest: seq<BodyRecord>)
    requires BoundariesInside(rest) && (r.VolumeBoundary? ==> rest != [] && !rest[0].VolumeBoundary?)
    ensures BoundariesInside([r] + rest)
  {
    var rs := [r] + rest;
    forall i | 0 <= i < |rs| && rs[i].VolumeBoundary?
      ensures i + 1 < |rs| && !rs[i + 1].VolumeBoundary?
    {
      if i > 0 {
        assert rest[i - 1] == rs[i];
      }
    }
  }

  lemma BodyStarts(decode: NameDecoder, s: bytes, p: nat, b: Body)
    requires ParseBody(decode, s, p, b).Ok?
    ensures Num(s, p, 4).Ok? && p + 4 <= |s|
    ensures Num(s, p, 4).value == SIG_END_MARKER && !ContinuesAfterEnd(Num(s, p + 4, 4)) ==>
      ParseBody(decode, s, p, b) == Ok(b)
  {
    hide ParseFileEntry, SkipRecord, ContinuesAfterEnd;
  }

  lemma FileStays(decode: NameDecoder, s: bytes, p: nat, encrypted: bool)
    requires ParseFileEntry(decode, s, p, encrypted).Ok?
    requires !ParseFileEntry(decode, s, p, encrypted).value.0.encrypted
    ensures !encrypted
  {
    hide Num, ParseSubs, ParseBlocks;
    var id, size := Num(s, p, 4).value, Num(s, p + 4, 8).value;
    StaysEncrypted(decode, s, p + 12, Header(EmptyEntry(id, size), encrypted));
  }

  lemma {:induction false} BodyStays(decode: NameDecoder, s: bytes, p: nat, b: Body)
    requires ParseBody(decode, s, p, b).Ok? && !ParseBody(decode, s, p, b).value.encrypted
    ensures !b.encrypted
    decreases |s| - p
  {
    hide Num, ParseFileEntry, SkipRecord, ContinuesAfterEnd;
    var sig := Num(s, p, 4).value;
    if sig == SIG_FILE_HEADER {
      var (h, q) := ParseFileEntry(decode, s, p + 4, b.encrypted).value;
      BodyStays(decode, s, q, Body(b.entries + [h.entry], h.encrypted));
      FileStays(decode, s, p + 4, b.encrypted);
    } else if sig == SIG_COMMENT || sig == SIG_DUMMY {
      BodyStays(decode, s, SkipRecord(s, p + 4).value, b);
    } else if ContinuesAfterEnd(Num(s, p + 4, 4)) {
      BodyStays(decode, s, p + 4, b);
    }
  }

  /** The record at p is this one, and the parser goes on behind it. */
  ghost predicate Leads(decode: NameDecoder, s: bytes, p: nat, b: Body, r: BodyRecord, b': Body) {
    && BodyFits(r) && Plainly(r) && HasAt(s, p, BodyBytes(r)) && BodyBytes(r) != []
    && ParseBody(decode, s, p, b) == ParseBody(decode, s, p + |BodyBytes(r)|, b')
    && !b.encrypted
  }

  lemma LeadsOn(decode: NameDecoder, s: bytes, p: nat, b: Body, r: BodyRecord, b': Body)
    requires Leads(decode, s, p, b, r, b')
    ensures BodyFits(r) && Plainly(r) && HasAt(s, p, BodyBytes(r)) && |BodyBytes(r)| > 0 && !b.encrypted
    ensures ParseBody(decode, s, p, b) == ParseBody(decode, s, p + |BodyBytes(r)|, b')
    ensures r.VolumeBoundary? ==> |BodyBytes(r)| == 4
  {
    hide ParseBody, BodyFits, HasAt;
  }

  lemma FileRecordWritten(decode: NameDecoder, s: bytes, p: nat, b: Body) returns (r: BodyRecord, b': Body)
    requires ParseBody(decode, s, p, b).Ok? && !ParseBody(decode, s, p, b).value.encrypted
    requires Num(s, p, 4).value == SIG_FILE_HEADER
    ensures r.FileBody? && Leads(decode, s, p, b, r, b')
  {
    hide HasAt, LeBytes, Num, FileBytes, FileFits, ParseFileEntry, SkipRecord, FileMeaning;
    var (h, q) := ParseFileEntry(decode, s, p + 4, b.encrypted).value;
    b' := Body(b.entries + [h.entry], h.encrypted);
    BodyStays(decode, s, q, b');
    SigWritten(s, p);
    var f, sig := FileWritten(decode, s, p + 4, b.encrypted);
    r := FileBody(f);
    FileAt(decode, s, p + 4, f, sig, b.encrypted);
    Joins(s, p, Sig(SIG_FILE_HEADER), FileBytes(f));
  }

  lemma DataRecordWritten(decode: NameDecoder, s: bytes, p: nat, b: Body) returns (r: BodyRecord)
    requires ParseBody(decode, s, p, b).Ok? && !ParseBody(decode, s, p, b).value.encrypted
    requires Num(s, p, 4).value == SIG_COMMENT || Num(s, p, 4).value == SIG_DUMMY
    ensures !r.VolumeBoundary? && Leads(decode, s, p, b, r, b)
  {
    hide HasAt, LeBytes, Num, ParseFileEntry, SkipRecord, DataBytes;
    var sig := Num(s, p, 4).value;
    BodyStays(decode, s, p, b);
    SigWritten(s, p);
    BodyStarts(decode, s, SkipRecord(s, p + 4).value, b);
    var flags, data := DataWritten(s, p + 4);
    r := if sig == SIG_COMMENT then CommentBody(flags, data) else DummyBody(flags, data);
    Joins(s, p, Sig(sig), DataBytes(flags, data));
  }

  lemma BoundaryWritten(decode: NameDecoder, s: bytes, p: nat, b: Body)
    requires ParseBody(decode, s, p, b).Ok? && !ParseBody(decode, s, p, b).value.encrypted
    requires Num(s, p, 4).value == SIG_END_MARKER && ContinuesAfterEnd(Num(s, p + 4, 4))
    ensures Leads(decode, s, p, b, VolumeBoundary, b) && Num(s, p + 4, 4).Ok?
    ensures Num(s, p + 4, 4).value != SIG_END_MARKER
  {
    hide HasAt, LeBytes, Num, ParseFileEntry, SkipRecord;
    BodyStays(decode, s, p, b);
    SigWritten(s, p);
  }

  lemma BodySigs(decode: NameDecoder, s: bytes, p: nat, b: Body)
    requires ParseBody(decode, s, p, b).Ok?
    ensures var sig := Num(s, p, 4).value;
      sig == SIG_FILE_HEADER || sig == SIG_COMMENT || sig == SIG_DUMMY || sig == SIG_END_MARKER
  {
    hide ParseFileEntry, SkipRecord, ContinuesAfterEnd, Num;
  }

  // ---------- the whole archive ----------

  /** No file of the archive is encrypted. */
  ghost predicate Unencrypted(a: ArchiveValue) {
    forall r :: r in a.body ==> Plainly(r)
  }

  /** Whatever opens without meeting an encryption record is the serialization of a well-formed archive. */
  lemma AcceptedIsSerialized(decode: NameDecoder, s: bytes) returns (a: ArchiveValue)
    requires Open(decode, s).Ok? && !Open(decode, s).value.isEncrypted
    ensures WellFormed(a) && Unencrypted(a) && s == Serialized(a)
  {
    hide HasAt, LeBytes, Num, PrefixSection, BodySection, ParsePrefix, ParseBody, BoundariesInside, BodyFits,
      PrefixFits, ContinuesAfterEnd, Plainly, Resolved;
    FieldSizes();
    var prefix := PrefixWritten(s, 14, Prefix(false, None));
    var p := 14 + |PrefixSection(prefix)|;
    var body := BodyWritten(decode, s, p, Body([], false));
    var end := p + |BodySection(body)|;
    SectionsInside(s, p, body);
    a := ArchiveValue(Num(s, 4, 2).value, Num(s, 6, 4).value, Num(s, 10, 4).value, prefix, body, s[end..]);
    NumWritten(s, 4, 2);
    NumWritten(s, 6, 4);
    NumWritten(s, 10, 4);
    SigWritten(s, 0);
    var header := LeBytes(a.headerId, 4) + LeBytes(a.reserved, 4);
    Joins(s, 6, LeBytes(a.headerId, 4), LeBytes(a.reserved, 4));
    Joins(s, 4, LeBytes(a.version, 2), header);
    Joins(s, 0, Sig(SIG_EGG_HEADER), LeBytes(a.version, 2) + header);
    Rest(s, end);
    Joins(s, p, BodySection(body), a.trailing);
    Joins(s, 14, PrefixSection(prefix), BodySection(body) + a.trailing);
    Joins(s, 0, HeaderBytes(a), PrefixSection(prefix) + (BodySection(body) + a.trailing));
    AllOf(s, Serialized(a));
    TrailingAt(s, s[..end], a.trailing);
  }

  lemma SectionsInside(s: bytes, p: nat, body: seq<BodyRecord>)
    requires HasAt(s, p, BodySection(body))
    ensures p + |BodySection(body)| <= |s|
  {
    hide BodySection;
  }

  lemma Rest(s: bytes, end: nat)
    requires end <= |s|
    ensures HasAt(s, end, s[end..]) && s == s[..end] + s[end..]
  {
  }

  lemma AllOf(s: bytes, t: bytes)
    requires HasAt(s, 0, t) && |t| == |s|
    ensures s == t
  {
  }

  lemma {:induction false} BodyPlain(decode: NameDecoder, rs: seq<BodyRecord>, p: nat, b: Body)
    requires (forall r :: r in rs ==> Plainly(r)) && !b.encrypted
    ensures !BodyMeaning(decode, rs, p, b).encrypted
    decreases |rs|
  {
    hide BodyBytes, SubsMeaning, SubSection, BlocksMeaning;
    if rs != [] {
      assert Plainly(rs[0]);
      BodyPlain(decode, rs[1..], p + |BodyBytes(rs[0])|, Step(decode, rs[0], p, b));
    }
  }

  /**
   The language of the parser: an archive opens without encryption exactly if it is the serialization of a well-formed
   archive value without it, and what comes out is the meaning of any value it is the serialization of.
   */
  lemma AcceptedIff(decode: NameDecoder, s: bytes)
    ensures Open(decode, s).Ok? && !Open(decode, s).value.isEncrypted
       <==> exists a :: WellFormed(a) && Unencrypted(a) && s == Serialized(a)
    ensures forall a :: WellFormed(a) && s == Serialized(a) ==> Open(decode, s) == Ok(Meaning(decode, a))
  {
    hide Open, WellFormed, Serialized, Unencrypted, Meaning;
    if Open(decode, s).Ok? && !Open(decode, s).value.isEncrypted {
      var a := AcceptedIsSerialized(decode, s);
    }
    forall a | WellFormed(a) && s == Serialized(a)
      ensures Open(decode, s) == Ok(Meaning(decode, a)) && (Unencrypted(a) ==> !Meaning(decode, a).isEncrypted)
    {
      OpenOfSerialized(decode, a);
      if Unencrypted(a) {
        PlainMeaning(decode, a);
      }
    }
  }

  lemma PlainMeaning(decode: NameDecoder, a: ArchiveValue)
    requires Unencrypted(a)
    ensures !Meaning(decode, a).isEncrypted
  {
    hide Plainly, PrefixMeaning, BodyMeaning, PrefixSection, Resolved;
    BodyPlain(decode, a.body, 14 + |PrefixSection(a.prefix)|, Body([], false));
  }
}
