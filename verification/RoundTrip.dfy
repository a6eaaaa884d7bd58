/** Opening what the writer wrote gives what was meant, at every position. */
module RoundTrip {
  import opened Bytes
  import opened Errors
  import opened ArchiveFormat
  import opened ArchiveWriter
  import Words

  // ---------- fields ----------

  lemma NumAt(s: bytes, p: nat, n: nat, k: nat)
    requires HasAt(s, p, LeBytes(n, k)) && n < Pow256(k)
    ensures Num(s, p, k) == Ok(n)
  {
    hide LeBytes, LeValue, Pow256;
    LeRoundTrip(n, k);
  }

  lemma SigAt(s: bytes, p: nat, n: nat)
    requires HasAt(s, p, Sig(n)) && n < TWO_32
    ensures Num(s, p, 4) == Ok(n) && p + 4 <= |s|
  {
    hide LeBytes, LeValue, Pow256;
    FieldSizes();
    NumAt(s, p, n, 4);
  }

  lemma OctetAt(s: bytes, p: nat, b: byte)
    requires HasAt(s, p, [b])
    ensures Octet(s, p) == Ok(b) && p < |s|
  {
    assert s[p..p + 1][0] == b;
  }

  lemma ExtraAt(s: bytes, p: nat, flags: byte, size: nat)
    requires HasAt(s, p, ExtraBytes(flags, size)) && SizeFits(flags, size)
    ensures ExtraField(s, p) == Ok(Extra(flags, size, p + |ExtraBytes(flags, size)|))
  {
    hide HasAt, LeBytes, Num, HasFlag, Octet;
    var k := if HasFlag(flags, 1) then 4 else 2;
    HasAtSplit(s, p, [flags], LeBytes(size, k));
    OctetAt(s, p, flags);
    FieldSizes();
    NumAt(s, p + 1, size, k);
  }

  lemma DataAt(s: bytes, p: nat, flags: byte, data: bytes)
    requires HasAt(s, p, DataBytes(flags, data)) && SizeFits(flags, |data|)
    ensures SkipRecord(s, p) == Ok(p + |DataBytes(flags, data)|)
  {
    hide HasAt, ExtraBytes, ExtraField;
    HasAtSplit(s, p, ExtraBytes(flags, |data|), data);
    ExtraAt(s, p, flags, |data|);
  }

  lemma WordAt(s: bytes, p: nat, w: bv32)
    requires HasAt(s, p, Words.BytesOf(w))
    ensures Word(s, p) == Ok(w)
  {
    var b := Words.BytesOf(w);
    hide Words.BytesOf, Words.WordOf;
    Words.WordOfBytesOf(w);
    var t := s[p..p + 4];
    assert t[0] == s[p] && t[1] == s[p + 1] && t[2] == s[p + 2] && t[3] == s[p + 3];
  }

  lemma ExactlyAt(s: bytes, p: nat, data: bytes)
    requires HasAt(s, p, data)
    ensures Exactly(s, p, |data|) == Ok(data)
  {
  }

  // ---------- prefix ----------

  lemma SplitAt(s: bytes, p: nat, r: PrefixRecord, acc: Prefix)
    requires r.SplitRecord? && PrefixFits(r) && HasAt(s, p, PrefixBytes(r))
    ensures ParsePrefix(s, p, acc)
         == ParsePrefix(s, p + |PrefixBytes(r)|, acc.(split := Some(SplitInfo(r.prevId, r.nextId))))
  {
    hide HasAt, LeBytes, Num, ExtraBytes, ExtraField;
    FieldSizes();
    var extra := ExtraBytes(r.flags, r.declared);
    var rest := LeBytes(r.prevId, 4) + (LeBytes(r.nextId, 4) + r.padding);
    HasAtSplit(s, p, Sig(SIG_SPLIT_INFO), extra + rest);
    HasAtSplit(s, p + 4, extra, rest);
    var q := p + 4 + |extra|;
    HasAtSplit(s, q, LeBytes(r.prevId, 4), LeBytes(r.nextId, 4) + r.padding);
    HasAtSplit(s, q + 4, LeBytes(r.nextId, 4), r.padding);
    SigAt(s, p, SIG_SPLIT_INFO);
    ExtraAt(s, p + 4, r.flags, r.declared);
    NumAt(s, q, r.prevId, 4);
    NumAt(s, q + 4, r.nextId, 4);
  }

  lemma PrefixDataAt(s: bytes, p: nat, r: PrefixRecord, acc: Prefix)
    requires !r.SplitRecord? && PrefixFits(r) && HasAt(s, p, PrefixBytes(r))
    ensures ParsePrefix(s, p, acc)
         == ParsePrefix(s, p + |PrefixBytes(r)|, if r.SolidRecord? then acc.(isSolid := true) else acc)
  {
    hide HasAt, LeBytes, Num, SkipRecord, DataBytes;
    var sig := match r
      case SolidRecord(_, _) => SIG_SOLID_INFO
      case SkippedRecord(_, _) => SIG_SKIP
      case _ => SIG_GLOBAL_ENCRYPT;
    HasAtSplit(s, p, Sig(sig), DataBytes(r.flags, r.data));
    SigAt(s, p, sig);
    DataAt(s, p + 4, r.flags, r.data);
  }

  lemma {:induction false} PrefixAt(s: bytes, p: nat, rs: seq<PrefixRecord>, acc: Prefix)
    requires forall r :: r in rs ==> PrefixFits(r)
    requires HasAt(s, p, PrefixSection(rs))
    ensures ParsePrefix(s, p, acc) == Ok((PrefixMeaning(rs, acc), p + |PrefixSection(rs)|))
    decreases |rs|
  {
    hide HasAt, LeBytes, PrefixBytes, PrefixFits, ParsePrefix;
    if rs == [] {
      PrefixEndAt(s, p, acc);
    } else {
      hide PrefixMeaning;
      var front, rest := PrefixBytes(rs[0]), PrefixSection(rs[1..]);
      assert PrefixSection(rs) == front + rest;
      hide PrefixSection;
      HasAtSplit(s, p, front, rest);
      PrefixRecordAt(s, p, rs[0], acc);
      PrefixMeaningFirst(rs, acc);
      PrefixAt(s, p + |front|, rs[1..], PrefixMeaning([rs[0]], acc));
    }
  }

  lemma PrefixEndAt(s: bytes, p: nat, acc: Prefix)
    requires HasAt(s, p, Sig(SIG_END_MARKER))
    ensures ParsePrefix(s, p, acc) == Ok((acc, p + 4))
  {
    hide HasAt, LeBytes, Num, ExtraField, SkipRecord;
    SigAt(s, p, SIG_END_MARKER);
  }

  lemma PrefixMeaningFirst(rs: seq<PrefixRecord>, acc: Prefix)
    requires rs != []
    ensures PrefixMeaning(rs, acc) == PrefixMeaning(rs[1..], PrefixMeaning([rs[0]], acc))
  {
    assert forall acc' :: PrefixMeaning([rs[0]][1..], acc') == acc';
  }

  lemma PrefixRecordAt(s: bytes, p: nat, r: PrefixRecord, acc: Prefix)
    requires PrefixFits(r) && HasAt(s, p, PrefixBytes(r))
    ensures ParsePrefix(s, p, acc) == ParsePrefix(s, p + |PrefixBytes(r)|, PrefixMeaning([r], acc))
  {
    hide ParsePrefix, HasAt, PrefixBytes;
    assert forall acc' :: PrefixMeaning([r][1..], acc') == acc';
    if r.SplitRecord? {
      SplitAt(s, p, r, acc);
    } else {
      PrefixDataAt(s, p, r, acc);
    }
  }

  // ---------- sub-headers ----------

  lemma NameAt(decode: NameDecoder, s: bytes, p: nat, r: SubRecord, h: Header)
    requires r.NameRecord? && SubFits(r) && HasAt(s, p, SubPayload(r))
    ensures ParseName(decode, s, p, h) == Ok((h.(entry := SubMeaning(decode, r, h.entry)), p + |SubPayload(r)|))
  {
    hide HasAt, LocaleBytes, ParentBytes, ExtraBytes, ExtraField, NameLocale, NameParent, HasFlag, Exactly,
      NormalizePath;
    var extra := ExtraBytes(r.flags, NameSize(r));
    var l, n := LocaleBytes(r.flags, r.locale), ParentBytes(r.flags, r.parent);
    HasAtSplit(s, p, extra, l + (n + r.name));
    var e := Extra(r.flags, NameSize(r), p + |extra|);
    HasAtSplit(s, e.next, l, n + r.name);
    HasAtSplit(s, e.next + |l|, n, r.name);
    ExtraAt(s, p, r.flags, NameSize(r));
    LocaleAt(s, e, r.locale);
    ParentAt(s, r.flags, e.next + |l|, e.size - |l|, h.entry.parentId, r.parent);
    ExactlyAt(s, e.next + |l| + |n|, r.name);
  }

  lemma LocaleAt(s: bytes, e: Extra, locale: nat)
    requires locale < TWO_16 && HasAt(s, e.next, LocaleBytes(e.flags, locale))
    requires e.size >= |LocaleBytes(e.flags, locale)|
    ensures var n := |LocaleBytes(e.flags, locale)|;
      NameLocale(s, e) == Ok((if HasFlag(e.flags, 0x08) then Some(locale) else None, e.next + n, e.size - n))
  {
    hide HasAt, LeBytes, HasFlag, Num;
    FieldSizes();
    if HasFlag(e.flags, 0x08) {
      NumAt(s, e.next, locale, 2);
    }
  }

  lemma ParentAt(s: bytes, flags: byte, p: nat, left: nat, was: Option<nat>, parent: nat)
    requires parent < TWO_32 && HasAt(s, p, ParentBytes(flags, parent)) && left >= |ParentBytes(flags, parent)|
    ensures var n := |ParentBytes(flags, parent)|;
      NameParent(s, flags, p, left, was) == Ok((if HasFlag(flags, 0x10) then Some(parent) else was, p + n, left - n))
  {
    hide HasAt, LeBytes, HasFlag, Num;
    FieldSizes();
    if HasFlag(flags, 0x10) {
      NumAt(s, p, parent, 4);
    }
  }

  lemma WindowsAt(decode: NameDecoder, s: bytes, p: nat, r: SubRecord, h: Header)
    requires r.WindowsRecord? && SubFits(r) && HasAt(s, p, SubPayload(r))
    ensures ParseWindows(s, p, h) == Ok((h.(entry := SubMeaning(decode, r, h.entry)), p + |SubPayload(r)|))
  {
    hide HasAt, LeBytes, Num, ExtraBytes, ExtraField, Octet, OrByte;
    var extra := ExtraBytes(r.flags, 9 + |r.padding|);
    HasAtSplit(s, p, extra, WindowsFields(r));
    ExtraAt(s, p, r.flags, 9 + |r.padding|);
    WindowsFieldsAt(s, p + |extra|, r);
  }

  function WindowsFields(r: SubRecord): bytes
    requires r.WindowsRecord?
  {
    LeBytes(r.time, 8) + ([r.attr] + r.padding)
  }

  lemma WindowsFieldsAt(s: bytes, q: nat, r: SubRecord)
    requires r.WindowsRecord? && SubFits(r) && HasAt(s, q, WindowsFields(r))
    ensures Num(s, q, 8) == Ok(r.time) && Octet(s, q + 8) == Ok(r.attr) && |WindowsFields(r)| == 9 + |r.padding|
  {
    hide HasAt, LeBytes, Num, Octet;
    FieldSizes();
    HasAtSplit(s, q, LeBytes(r.time, 8), [r.attr] + r.padding);
    HasAtSplit(s, q + 8, [r.attr], r.padding);
    NumAt(s, q, r.time, 8);
    OctetAt(s, q + 8, r.attr);
  }

  lemma PosixAt(decode: NameDecoder, s: bytes, p: nat, r: SubRecord, h: Header)
    requires r.PosixRecord? && SubFits(r) && HasAt(s, p, SubPayload(r))
    ensures ParsePosix(s, p, h) == Ok((h.(entry := SubMeaning(decode, r, h.entry)), p + |SubPayload(r)|))
  {
    hide HasAt, LeBytes, Num, ExtraBytes, ExtraField, WithPosix;
    var extra := ExtraBytes(r.flags, 20 + |r.padding|);
    HasAtSplit(s, p, extra, PosixFields(r));
    ExtraAt(s, p, r.flags, 20 + |r.padding|);
    PosixFieldsAt(s, p + |extra|, r);
  }

  function PosixFields(r: SubRecord): bytes
    requires r.PosixRecord?
  {
    LeBytes(r.mode, 4) + (LeBytes(r.uid, 4) + (LeBytes(r.gid, 4) + (LeBytes(r.mtime, 8) + r.padding)))
  }

  lemma PosixFieldsAt(s: bytes, q: nat, r: SubRecord)
    requires r.PosixRecord? && SubFits(r) && HasAt(s, q, PosixFields(r))
    ensures Num(s, q, 4) == Ok(r.mode) && Num(s, q + 4, 4) == Ok(r.uid) && Num(s, q + 8, 4) == Ok(r.gid)
    ensures Num(s, q + 12, 8) == Ok(r.mtime) && |PosixFields(r)| == 20 + |r.padding|
  {
    hide HasAt, LeBytes, Num;
    FieldSizes();
    var t3 := LeBytes(r.mtime, 8) + r.padding;
    var t2 := LeBytes(r.gid, 4) + t3;
    var t1 := LeBytes(r.uid, 4) + t2;
    HasAtSplit(s, q, LeBytes(r.mode, 4), t1);
    HasAtSplit(s, q + 4, LeBytes(r.uid, 4), t2);
    HasAtSplit(s, q + 8, LeBytes(r.gid, 4), t3);
    HasAtSplit(s, q + 12, LeBytes(r.mtime, 8), r.padding);
    NumAt(s, q, r.mode, 4);
    NumAt(s, q + 4, r.uid, 4);
    NumAt(s, q + 8, r.gid, 4);
    NumAt(s, q + 12, r.mtime, 8);
  }

  lemma SubAt(decode: NameDecoder, s: bytes, p: nat, r: SubRecord, h: Header)
    requires SubFits(r) && HasAt(s, p, SubPayload(r))
    ensures ParseSub(decode, s, p, SubSig(r), h)
         == Ok((h.(entry := SubMeaning(decode, r, h.entry)), p + |SubPayload(r)|))
  {
    hide HasAt, ParseName, ParseWindows, ParsePosix, SkipRecord, DataBytes;
    match r {
      case NameRecord(_, _, _, _) => NameAt(decode, s, p, r, h);
      case CommentRecord(flags, data) => DataAt(s, p, flags, data);
      case WindowsRecord(_, _, _, _) => WindowsAt(decode, s, p, r, h);
      case PosixRecord(_, _, _, _, _, _) => PosixAt(decode, s, p, r, h);
    }
  }

  /**
   An end marker after the payload makes the reader settle on the payload's length, unless it tries the longer length
   first and finds one there too.
   */
  lemma PayloadLengthFound(s: bytes, p: nat, e: EncryptRecord)
    requires EncryptFits(e) && EndsAt(s, p + |e.payload|)
    requires LongerIsTried(Some(e)) ==> !EndsAt(s, p + |e.payload| + 10)
    ensures PayloadLength(s, p, e.cipher.PayloadLengths(), e.declared) == |e.payload|
  {
    hide EndsAt;
    var candidates := e.cipher.PayloadLengths();
    assert candidates == [16] || candidates == [20, 10] || candidates == [28, 18];
    if e.declared !in candidates {
      if |e.payload| == candidates[0] {
        assert FirstLanding(s, p, candidates, e.declared) == |e.payload|;
      } else {
        assert candidates[0] == |e.payload| + 10 && candidates[1..] == [|e.payload|];
        assert FirstLanding(s, p, candidates[1..], e.declared) == |e.payload|;
      }
    }
  }

  /**
   Whenever some candidate length is followed by an end marker, the reader settles on such a candidate; and for
   a declared size that is no candidate, the longest one wins if it is among them.
   */
  lemma {:induction false} PayloadLandsIfAnyDoes(s: bytes, p: nat, candidates: seq<nat>, declared: nat, n: nat)
    requires n in candidates && EndsAt(s, p + n)
    ensures var k := PayloadLength(s, p, candidates, declared); k in candidates && EndsAt(s, p + k)
    ensures declared !in candidates && n == candidates[0] ==> PayloadLength(s, p, candidates, declared) == n
  {
    FirstLandingLands(s, p, candidates, declared, n);
  }

  lemma {:induction false} FirstLandingLands(s: bytes, p: nat, candidates: seq<nat>, declared: nat, n: nat)
    requires n in candidates && EndsAt(s, p + n)
    ensures var k := FirstLanding(s, p, candidates, declared); k in candidates && EndsAt(s, p + k)
    decreases |candidates|
  {
    hide EndsAt;
    if !EndsAt(s, p + candidates[0]) {
      FirstLandingLands(s, p, candidates[1..], declared, n);
    }
  }

  /** The reader takes a cipher's byte for that cipher ... */
  lemma CipherRead(c: EncryptionMethod)
    requires !c.UnknownEncryption?
    ensures CipherByte(c) < 256 && EncryptionFromByte(CipherByte(c)) == c
  {
  }

  /** ... and a compression method's byte for that method. */
  lemma MethodRead(m: CompressionMethod)
    requires m.UnknownCompression? ==> 4 < m.code < 256
    ensures MethodByte(m) < 256 && CompressionFromByte(MethodByte(m)) == m
  {
  }

  lemma EncryptAt(s: bytes, p: nat, e: EncryptRecord, h: Header)
    requires EncryptFits(e) && HasAt(s, p, EncryptBytes(e) + Sig(SIG_END_MARKER))
    requires LongerIsTried(Some(e)) ==> !EndsAt(s, p + |EncryptBytes(e)| + 10)
    ensures HasAt(s, p, Sig(SIG_ENCRYPT_INFO)) && HasAt(s, p + |EncryptBytes(e)|, Sig(SIG_END_MARKER))
    ensures ParseEncrypt(s, p + 4, h) == Ok((EncryptMeaning(Some(e), h), p + |EncryptBytes(e)|))
  {
    hide HasAt, LeBytes, Num, ExtraBytes, ExtraField, Exactly, PayloadLength, EncryptionFromByte, CipherByte;
    FieldSizes();
    var extra := ExtraBytes(e.flags, 1 + e.declared);
    HasAtSplit(s, p, EncryptBytes(e), Sig(SIG_END_MARKER));
    HasAtSplit(s, p, Sig(SIG_ENCRYPT_INFO), extra + (LeBytes(CipherByte(e.cipher), 1) + e.payload));
    HasAtSplit(s, p + 4, extra, LeBytes(CipherByte(e.cipher), 1) + e.payload);
    var q := p + 4 + |extra|;
    HasAtSplit(s, q, LeBytes(CipherByte(e.cipher), 1), e.payload);
    ExtraAt(s, p + 4, e.flags, 1 + e.declared);
    CipherRead(e.cipher);
    NumAt(s, q, CipherByte(e.cipher), 1);
    SigAt(s, q + 1 + |e.payload|, SIG_END_MARKER);
    PayloadLengthFound(s, q + 1, e);
    ExactlyAt(s, q + 1, e.payload);
  }

  lemma {:induction false} SubsAt(
    decode: NameDecoder, s: bytes, p: nat, rs: seq<SubRecord>, encrypt: Option<EncryptRecord>, h: Header)
    requires (forall r :: r in rs ==> SubFits(r)) && (encrypt.Some? ==> EncryptFits(encrypt.value))
    requires HasAt(s, p, SubSection(rs, encrypt))
    requires LongerIsTried(encrypt) ==> !EndsAt(s, p + |SubSection(rs, encrypt)| + 6)
    ensures ParseSubs(decode, s, p, h)
         == Ok((EncryptMeaning(encrypt, h.(entry := SubsMeaning(decode, rs, h.entry))), p + |SubSection(rs, encrypt)|))
    decreases |rs|
  {
    hide HasAt, LeBytes, SubFits, EncryptFits, SubMeaning, EncryptMeaning, ParseSubs, SubRecordBytes, EndsAt,
      LongerIsTried;
    if rs != [] {
      HasAtSplit(s, p, SubRecordBytes(rs[0]), SubSection(rs[1..], encrypt));
      SubRecordAt(decode, s, p, rs[0], h);
      var h' := h.(entry := SubMeaning(decode, rs[0], h.entry));
      SubsAt(decode, s, p + |SubRecordBytes(rs[0])|, rs[1..], encrypt, h');
    } else {
      EndOfSubsAt(decode, s, p, encrypt, h);
    }
  }

  lemma SubRecordAt(decode: NameDecoder, s: bytes, p: nat, r: SubRecord, h: Header)
    requires SubFits(r) && HasAt(s, p, SubRecordBytes(r))
    ensures ParseSubs(decode, s, p, h)
         == ParseSubs(decode, s, p + |SubRecordBytes(r)|, h.(entry := SubMeaning(decode, r, h.entry)))
  {
    hide HasAt, LeBytes, SubPayload, SubFits, SubMeaning, Num, ParseSub;
    HasAtSplit(s, p, Sig(SubSig(r)), SubPayload(r));
    SigAt(s, p, SubSig(r));
    SubAt(decode, s, p + 4, r, h);
  }

  lemma EndOfSubsAt(decode: NameDecoder, s: bytes, p: nat, encrypt: Option<EncryptRecord>, h: Header)
    requires encrypt.Some? ==> EncryptFits(encrypt.value)
    requires HasAt(s, p, SubSection([], encrypt))
    requires LongerIsTried(encrypt) ==> !EndsAt(s, p + |SubSection([], encrypt)| + 6)
    ensures ParseSubs(decode, s, p, h) == Ok((EncryptMeaning(encrypt, h), p + |SubSection([], encrypt)|))
  {
    hide HasAt, LeBytes, EncryptBytes, EncryptFits, Num, ParseEncrypt, EndsAt, LongerIsTried;
    if encrypt.Some? {
      var e := encrypt.value;
      EncryptAt(s, p, e, h);
      SigAt(s, p, SIG_ENCRYPT_INFO);
      SigAt(s, p + |EncryptBytes(e)|, SIG_END_MARKER);
    } else {
      assert SubSection([], encrypt) == Sig(SIG_END_MARKER);
      SigAt(s, p, SIG_END_MARKER);
    }
  }

  // ---------- blocks ----------

  lemma BlockAt(s: bytes, p: nat, b: BlockRecord)
    requires BlockFits(b) && HasAt(s, p, BlockHead(b) + b.data)
    ensures ParseBlock(s, p)
         == Ok((EggBlock(b.compression, b.uncompressedSize, |b.data|, b.crc, p + 18), p + 18 + |b.data|))
    ensures HasAt(s, p + 18, b.data)
  {
    hide HasAt, LeBytes, Num, Octet, Word, Words.BytesOf, CompressionFromByte, MethodByte;
    FieldSizes();
    HasAtSplit(s, p, BlockHead(b), b.data);
    var t5 := Sig(SIG_END_MARKER);
    var t4 := Words.BytesOf(b.crc) + t5;
    var t3 := LeBytes(|b.data|, 4) + t4;
    var t2 := LeBytes(b.uncompressedSize, 4) + t3;
    HasAtSplit(s, p, LeBytes(MethodByte(b.compression), 1), [b.hint] + t2);
    HasAtSplit(s, p + 1, [b.hint], t2);
    HasAtSplit(s, p + 2, LeBytes(b.uncompressedSize, 4), t3);
    HasAtSplit(s, p + 6, LeBytes(|b.data|, 4), t4);
    HasAtSplit(s, p + 10, Words.BytesOf(b.crc), t5);
    MethodRead(b.compression);
    NumAt(s, p, MethodByte(b.compression), 1);
    OctetAt(s, p + 1, b.hint);
    NumAt(s, p + 2, b.uncompressedSize, 4);
    NumAt(s, p + 6, |b.data|, 4);
    WordAt(s, p + 10, b.crc);
    SigAt(s, p + 14, SIG_END_MARKER);
  }

  /** Every block is found, and its data position holds its data. */
  lemma {:induction false} BlocksAt(s: bytes, p: nat, bs: seq<BlockRecord>, sig: nat, acc: seq<EggBlock>)
    requires (forall b :: b in bs ==> BlockFits(b)) && EndsBlocks(sig)
    requires HasAt(s, p, BlockSection(bs)) && HasAt(s, p + |BlockSection(bs)|, Sig(sig))
    ensures ParseBlocks(s, p, acc) == Ok((acc + BlocksMeaning(bs, p), p + |BlockSection(bs)|))
    ensures forall i :: 0 <= i < |bs| ==> HasAt(s, BlocksMeaning(bs, p)[i].dataPos, bs[i].data)
    decreases |bs|
  {
    hide HasAt, LeBytes, BlockBytes, BlockFits, ParseBlocks;
    if bs == [] {
      BlocksEndAt(s, p, sig, acc);
      assert acc + [] == acc;
    } else {
      var b := bs[0];
      var m := EggBlock(b.compression, b.uncompressedSize, |b.data|, b.crc, p + 22);
      HasAtSplit(s, p, BlockBytes(b), BlockSection(bs[1..]));
      BlockRecordAt(s, p, b, acc);
      BlocksAt(s, p + 22 + |b.data|, bs[1..], sig, acc + [m]);
      assert acc + [m] + BlocksMeaning(bs[1..], p + 22 + |b.data|) == acc + BlocksMeaning(bs, p);
    }
  }

  lemma BlocksEndAt(s: bytes, p: nat, sig: nat, acc: seq<EggBlock>)
    requires EndsBlocks(sig) && HasAt(s, p, Sig(sig))
    ensures ParseBlocks(s, p, acc) == Ok((acc, p))
  {
    hide HasAt, LeBytes, Num, ParseBlock;
    SigAt(s, p, sig);
  }

  lemma BlockRecordAt(s: bytes, p: nat, b: BlockRecord, acc: seq<EggBlock>)
    requires BlockFits(b) && HasAt(s, p, BlockBytes(b))
    ensures |BlockBytes(b)| == 22 + |b.data| && HasAt(s, p + 22, b.data)
    ensures ParseBlocks(s, p, acc) == ParseBlocks(s, p + 22 + |b.data|,
      acc + [EggBlock(b.compression, b.uncompressedSize, |b.data|, b.crc, p + 22)])
  {
    hide HasAt, LeBytes, Num, BlockHead, BlockFits, ParseBlock;
    HasAtSplit(s, p, Sig(SIG_BLOCK_HEADER), BlockHead(b) + b.data);
    SigAt(s, p, SIG_BLOCK_HEADER);
    BlockAt(s, p + 4, b);
    BlockHeadLength(b);
  }

  lemma BlockHeadLength(b: BlockRecord)
    ensures |BlockHead(b)| == 18
  {
    hide LeBytes, Words.BytesOf;
  }

  // ---------- body ----------

  lemma FileAt(decode: NameDecoder, s: bytes, p: nat, f: FileRecord, sig: nat, encrypted: bool)
    requires FileFits(f) && EndsBlocks(sig)
    requires HasAt(s, p, FileBytes(f)) && HasAt(s, p + |FileBytes(f)|, Sig(sig))
    ensures ParseFileEntry(decode, s, p, encrypted) == Ok((FileMeaning(decode, f, p, encrypted), p + |FileBytes(f)|))
    ensures DataInPlace(s, f.blocks, FileMeaning(decode, f, p, encrypted).entry.blocks)
  {
    hide HasAt, LeBytes, Num, SubSection, BlockSection, ParseSubs, ParseBlocks, EncryptMeaning, SubsMeaning,
      BlocksMeaning;
    FieldSizes();
    var subs, blocks := SubSection(f.subs, f.encrypt), BlockSection(f.blocks);
    HasAtSplit(s, p, LeBytes(f.id, 4), LeBytes(f.size, 8) + (subs + blocks));
    HasAtSplit(s, p + 4, LeBytes(f.size, 8), subs + blocks);
    HasAtSplit(s, p + 12, subs, blocks);
    NumAt(s, p, f.id, 4);
    NumAt(s, p + 4, f.size, 8);
    if LongerIsTried(f.encrypt) {
      FirstBlockSizeAt(s, p + 12 + |subs|, f.blocks);
    }
    SubsAt(decode, s, p + 12, f.subs, f.encrypt, Header(EmptyEntry(f.id, f.size), encrypted));
    BlocksAt(s, p + 12 + |subs|, f.blocks, sig, []);
    var m := BlocksMeaning(f.blocks, p + 12 + |subs|);
    assert [] + m == m;
    CompressedSizes(f.blocks, p + 12 + |subs|);
    assert FileMeaning(decode, f, p, encrypted).entry.blocks == m;
  }

  /** Six bytes into a block section stands the uncompressed size of its first block. */
  lemma FirstBlockSizeAt(s: bytes, p: nat, bs: seq<BlockRecord>)
    requires bs != [] && BlockFits(bs[0]) && HasAt(s, p, BlockSection(bs)) && bs[0].uncompressedSize != SIG_END_MARKER
    ensures !EndsAt(s, p + 6)
  {
    hide HasAt, LeBytes, Num, Words.BytesOf;
    FieldSizes();
    var b := bs[0];
    var t3 := LeBytes(|b.data|, 4) + (Words.BytesOf(b.crc) + Sig(SIG_END_MARKER));
    var t2 := LeBytes(b.uncompressedSize, 4) + t3;
    HasAtSplit(s, p, BlockBytes(b), BlockSection(bs[1..]));
    HasAtSplit(s, p, Sig(SIG_BLOCK_HEADER), BlockHead(b) + b.data);
    HasAtSplit(s, p + 4, BlockHead(b), b.data);
    HasAtSplit(s, p + 4, LeBytes(MethodByte(b.compression), 1), [b.hint] + t2);
    HasAtSplit(s, p + 5, [b.hint], t2);
    HasAtSplit(s, p + 6, LeBytes(b.uncompressedSize, 4), t3);
    NumAt(s, p + 6, b.uncompressedSize, 4);
  }

  /** The data positions of a file's blocks hold the blocks' data. */
  ghost predicate DataInPlace(s: bytes, written: seq<BlockRecord>, read: seq<EggBlock>) {
    && |read| == |written|
    && forall i :: 0 <= i < |written| ==>
         read[i].compressedSize == |written[i].data| && HasAt(s, read[i].dataPos, written[i].data)
  }

  lemma {:induction false} CompressedSizes(bs: seq<BlockRecord>, p: nat)
    ensures forall i :: 0 <= i < |bs| ==> BlocksMeaning(bs, p)[i].compressedSize == |bs[i].data|
    decreases |bs|
  {
    if bs != [] {
      CompressedSizes(bs[1..], p + 22 + |bs[0].data|);
    }
  }

  function BodySig(r: BodyRecord): nat {
    match r
    case FileBody(_) => SIG_FILE_HEADER
    case CommentBody(_, _) => SIG_COMMENT
    case DummyBody(_, _) => SIG_DUMMY
    case VolumeBoundary => SIG_END_MARKER
  }

  /** A body section starts with the signature of its first record, or the end marker. */
  lemma NextSigAt(s: bytes, p: nat, rs: seq<BodyRecord>)
    requires HasAt(s, p, BodySection(rs))
    ensures HasAt(s, p, Sig(if rs == [] then SIG_END_MARKER else BodySig(rs[0])))
  {
    hide HasAt, LeBytes, FileBytes, DataBytes;
    if rs != [] {
      HasAtSplit(s, p, BodyBytes(rs[0]), BodySection(rs[1..]));
      match rs[0] {
        case FileBody(f) => HasAtSplit(s, p, Sig(SIG_FILE_HEADER), FileBytes(f));
        case CommentBody(flags, data) => HasAtSplit(s, p, Sig(SIG_COMMENT), DataBytes(flags, data));
        case DummyBody(flags, data) => HasAtSplit(s, p, Sig(SIG_DUMMY), DataBytes(flags, data));
        case VolumeBoundary =>
      }
    }
  }

  /** The body after one record. */
  function Step(decode: NameDecoder, r: BodyRecord, p: nat, b: Body): Body {
    if r.FileBody? then
      var h := FileMeaning(decode, r.file, p + 4, b.encrypted);
      Body(b.entries + [h.entry], h.encrypted)
    else b
  }

  lemma BodyRecordAt(decode: NameDecoder, s: bytes, p: nat, r: BodyRecord, sig: nat, b: Body)
    requires BodyFits(r) && EndsBlocks(sig) && HasAt(s, p, BodyBytes(r)) && HasAt(s, p + |BodyBytes(r)|, Sig(sig))
    requires r.VolumeBoundary? ==> sig != SIG_END_MARKER
    ensures ParseBody(decode, s, p, b) == ParseBody(decode, s, p + |BodyBytes(r)|, Step(decode, r, p, b))
    ensures r.FileBody? ==> DataInPlace(s, r.file.blocks, FileMeaning(decode, r.file, p + 4, b.encrypted).entry.blocks)
  {
    hide HasAt, LeBytes, Num, FileBytes, DataBytes, FileMeaning, ParseFileEntry, SkipRecord, DataInPlace, FileFits;
    match r {
      case FileBody(f) =>
        HasAtSplit(s, p, Sig(SIG_FILE_HEADER), FileBytes(f));
        SigAt(s, p, SIG_FILE_HEADER);
        FileAt(decode, s, p + 4, f, sig, b.encrypted);
      case CommentBody(flags, data) =>
        HasAtSplit(s, p, Sig(SIG_COMMENT), DataBytes(flags, data));
        SigAt(s, p, SIG_COMMENT);
        DataAt(s, p + 4, flags, data);
      case DummyBody(flags, data) =>
        HasAtSplit(s, p, Sig(SIG_DUMMY), DataBytes(flags, data));
        SigAt(s, p, SIG_DUMMY);
        DataAt(s, p + 4, flags, data);
      case VolumeBoundary =>
        SigAt(s, p, SIG_END_MARKER);
        SigAt(s, p + 4, sig);
    }
  }

  function Files(rs: seq<BodyRecord>): seq<FileRecord> {
    if rs == [] then [] else (if rs[0].FileBody? then [rs[0].file] else []) + Files(rs[1..])
  }

  /** The entries read after the first `from` are those of the files written, with their data in place. */
  ghost predicate AllInPlace(s: bytes, files: seq<FileRecord>, entries: seq<EggFileEntry>, from: nat) {
    && |entries| == from + |files|
    && forall k :: 0 <= k < |files| ==> DataInPlace(s, files[k].blocks, entries[from + k].blocks)
  }

  lemma {:induction false} BodyAt(decode: NameDecoder, s: bytes, p: nat, rs: seq<BodyRecord>, b: Body)
    requires (forall r :: r in rs ==> BodyFits(r)) && BoundariesInside(rs)
    requires HasAt(s, p, BodySection(rs)) && !ContinuesAfterEnd(Num(s, p + |BodySection(rs)|, 4))
    ensures ParseBody(decode, s, p, b) == Ok(BodyMeaning(decode, rs, p, b))
    ensures AllInPlace(s, Files(rs), BodyMeaning(decode, rs, p, b).entries, |b.entries|)
    ensures b.entries <= BodyMeaning(decode, rs, p, b).entries
    decreases |rs|
  {
    hide HasAt, LeBytes, Num, BodyBytes, BodyFits, FileMeaning, DataInPlace, ContinuesAfterEnd, ParseBody,
      AllInPlace;
    if rs == [] {
      BodyEndAt(decode, s, p, b);
      NothingInPlace(s, b.entries);
    } else {
      var r, rest := rs[0], rs[1..];
      assert rs == [r] + rest;
      var sig := if rest == [] then SIG_END_MARKER else BodySig(rest[0]);
      HasAtSplit(s, p, BodyBytes(r), BodySection(rest));
      var q := p + |BodyBytes(r)|;
      NextSigAt(s, q, rest);
      assert forall i :: 0 <= i < |rest| ==> rest[i] == rs[i + 1];
      BodyRecordAt(decode, s, p, r, sig, b);
      var b' := Step(decode, r, p, b);
      BodyAt(decode, s, q, rest, b');
      InPlaceStep(decode, s, p, r, rest, b);
    }
  }

  lemma NothingInPlace(s: bytes, entries: seq<EggFileEntry>)
    ensures AllInPlace(s, Files([]), entries, |entries|)
  {
  }

  lemma BodyEndAt(decode: NameDecoder, s: bytes, p: nat, b: Body)
    requires HasAt(s, p, Sig(SIG_END_MARKER)) && !ContinuesAfterEnd(Num(s, p + 4, 4))
    ensures ParseBody(decode, s, p, b) == Ok(b)
  {
    hide HasAt, LeBytes, Num, ParseFileEntry, SkipRecord, ContinuesAfterEnd;
    SigAt(s, p, SIG_END_MARKER);
  }

  lemma InPlaceStep(decode: NameDecoder, s: bytes, p: nat, r: BodyRecord, rest: seq<BodyRecord>, b: Body)
    requires var b' := Step(decode, r, p, b); var m := BodyMeaning(decode, rest, p + |BodyBytes(r)|, b').entries;
      AllInPlace(s, Files(rest), m, |b'.entries|) && b'.entries <= m
    requires r.FileBody? ==> DataInPlace(s, r.file.blocks, FileMeaning(decode, r.file, p + 4, b.encrypted).entry.blocks)
    ensures var m := BodyMeaning(decode, [r] + rest, p, b).entries;
      AllInPlace(s, Files([r] + rest), m, |b.entries|) && b.entries <= m
  {
    hide FileMeaning, DataInPlace, BodyBytes;
    var rs := [r] + rest;
    assert rs[1..] == rest;
    var b' := Step(decode, r, p, b);
    var m := BodyMeaning(decode, rest, p + |BodyBytes(r)|, b').entries;
    assert BodyMeaning(decode, rs, p, b).entries == m;
    var files := Files(rs);
    forall k | 0 <= k < |files| ensures DataInPlace(s, files[k].blocks, m[|b.entries| + k].blocks) {
      if r.FileBody? {
        if k == 0 {
          assert m[|b.entries|] == b'.entries[|b.entries|];
        } else {
          assert files[k] == Files(rest)[k - 1];
        }
      }
    }
  }

  /**
   The round trip: whatever precedes no more than the header, opening the bytes of a well-formed archive value
   gives its meaning, and every block's data position holds the block's data.
   */
  lemma OpenOfSerialized(decode: NameDecoder, a: ArchiveValue)
    requires WellFormed(a)
    ensures Open(decode, Serialized(a)) == Ok(Meaning(decode, a))
    ensures AllInPlace(Serialized(a), Files(a.body), Meaning(decode, a).entries, 0)
  {
    hide HasAt, LeBytes, Num, PrefixSection, BodySection, ParsePrefix, ParseBody, BodyMeaning, PrefixMeaning,
      ContinuesAfterEnd, DataInPlace;
    FieldSizes();
    var s := Serialized(a);
    var prefix, body := PrefixSection(a.prefix), BodySection(a.body);
    WholeAt(s);
    HasAtSplit(s, 0, HeaderBytes(a), prefix + (body + a.trailing));
    HasAtSplit(s, 0, Sig(SIG_EGG_HEADER), LeBytes(a.version, 2) + (LeBytes(a.headerId, 4) + LeBytes(a.reserved, 4)));
    HasAtSplit(s, 4, LeBytes(a.version, 2), LeBytes(a.headerId, 4) + LeBytes(a.reserved, 4));
    HasAtSplit(s, 6, LeBytes(a.headerId, 4), LeBytes(a.reserved, 4));
    SigAt(s, 0, SIG_EGG_HEADER);
    NumAt(s, 4, a.version, 2);
    NumAt(s, 6, a.headerId, 4);
    NumAt(s, 10, a.reserved, 4);
    HasAtSplit(s, 14, prefix, body + a.trailing);
    HasAtSplit(s, 14 + |prefix|, body, a.trailing);
    PrefixAt(s, 14, a.prefix, Prefix(false, None));
    TrailingAt(s, HeaderBytes(a) + (prefix + body), a.trailing);
    BodyAt(decode, s, 14 + |prefix|, a.body, Body([], false));
    var m := BodyMeaning(decode, a.body, 14 + |prefix|, Body([], false)).entries;
    ResolvedInPlace(s, Files(a.body), m);
  }

  lemma WholeAt(s: bytes)
    ensures HasAt(s, 0, s)
  {
  }

  lemma TrailingAt(s: bytes, front: bytes, trailing: bytes)
    requires s == front + trailing
    ensures Num(s, |front|, 4) == Num(trailing, 0, 4)
  {
    if 4 <= |trailing| {
      assert s[|front|..|front| + 4] == trailing[0..4];
    }
  }

  /** Resolving names leaves the blocks alone. */
  lemma ResolvedInPlace(s: bytes, files: seq<FileRecord>, entries: seq<EggFileEntry>)
    requires AllInPlace(s, files, entries, 0)
    ensures AllInPlace(s, files, Resolved(entries), 0)
  {
    hide DataInPlace, ResolvedName;
    forall k | 0 <= k < |files| ensures DataInPlace(s, files[k].blocks, Resolved(entries)[0 + k].blocks) {
      assert DataInPlace(s, files[k].blocks, entries[0 + k].blocks);
    }
  }
}
