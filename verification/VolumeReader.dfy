/**
 The multi-volume reader of src/volume.rs: several files, each with its own position, read and sought as one
 flat byte sequence. A plain archive is the case of one segment that starts at offset 0.
 */
module VolumeReader {
  import opened Bytes
  import opened Errors

  /** An open file: its bytes and a position, which may lie beyond the end. Reads may be short. */
  class VolumeFile {
    const data: bytes
    var pos: nat

    constructor (data: bytes)
      ensures this.data == data && pos == 0
    {
      this.data := data;
      pos := 0;
    }

    /** `File::read`: at least one byte unless the buffer is empty or the end is reached. */
    method Read(buf: array<byte>, lo: nat, hi: nat) returns (n: nat)
      requires lo <= hi <= buf.Length
      modifies this`pos, buf
      ensures n <= hi - lo && pos == old(pos) + n
      ensures n == 0 <==> lo == hi || old(pos) >= |data|
      ensures n > 0 ==> pos <= |data| && buf[lo..lo + n] == data[old(pos)..pos]
      ensures buf[..lo] == old(buf[..lo]) && buf[lo + n..] == old(buf[lo + n..])
    {
      var avail := if pos < |data| then |data| - pos else 0;
      if lo == hi || avail == 0 {
        return 0;
      }
      n :| 0 < n <= hi - lo && n <= avail;
      forall i | 0 <= i < n {
        buf[lo + i] := data[pos + i];
      }
      pos := pos + n;
    }

    method Seek(p: nat)
      modifies this`pos
      ensures pos == p
    {
      pos := p;
    }
  }

  datatype Segment = Segment(file: VolumeFile, physStart: nat, logicalStart: nat, dataSize: nat) {
    ghost predicate WellFormed() {
      physStart + dataSize == |file.data|
    }

    function End(): nat {
      logicalStart + dataSize
    }

    /** The bytes of the archive this segment holds. */
    ghost function Data(): bytes
      requires WellFormed()
    {
      file.data[physStart..]
    }
  }

  ghost predicate AllWellFormed(segments: seq<Segment>) {
    forall s :: s in segments ==> s.WellFormed()
  }

  /** The segments follow one another without gap or overlap, from 0. */
  ghost predicate Tiled(segments: seq<Segment>) {
    && (segments != [] ==> segments[0].logicalStart == 0)
    && forall i {:trigger segments[i].logicalStart} :: 1 <= i < |segments|
         ==> segments[i].logicalStart == segments[i - 1].End()
  }

  /** The archive as one byte sequence. */
  ghost function FlatOf(segments: seq<Segment>): bytes
    requires AllWellFormed(segments)
  {
    if segments == [] then []
    else FlatOf(segments[..|segments| - 1]) + segments[|segments| - 1].Data()
  }

  lemma WithoutLast(segments: seq<Segment>)
    requires segments != [] && AllWellFormed(segments) && Tiled(segments)
    ensures var rest := segments[..|segments| - 1];
      && AllWellFormed(rest) && Tiled(rest)
      && segments[|segments| - 1].logicalStart == if rest == [] then 0 else rest[|rest| - 1].End()
  {
    var rest := segments[..|segments| - 1];
    assert forall i :: 0 <= i < |rest| ==> rest[i] == segments[i];
    assert forall s :: s in rest ==> s in segments;
    if rest != [] {
      assert rest[|rest| - 1] == segments[|segments| - 2];
      assert segments[|segments| - 1].logicalStart == segments[|segments| - 2].End();
    }
  }

  lemma {:induction false} FlatLength(segments: seq<Segment>)
    requires AllWellFormed(segments) && Tiled(segments)
    ensures |FlatOf(segments)| == if segments == [] then 0 else segments[|segments| - 1].End()
  {
    if segments != [] {
      WithoutLast(segments);
      FlatLength(segments[..|segments| - 1]);
      assert segments[|segments| - 1].WellFormed();
    }
  }

  /** Segment i stands in the flat sequence at its logical start. */
  lemma {:induction false} SegmentInFlat(segments: seq<Segment>, i: nat)
    requires AllWellFormed(segments) && Tiled(segments) && i < |segments|
    ensures segments[i].WellFormed()
    ensures HasAt(FlatOf(segments), segments[i].logicalStart, segments[i].Data())
  {
    hide HasAt, Tiled, Segment.Data;
    var n := |segments|;
    var rest, last := segments[..n - 1], segments[n - 1];
    WithoutLast(segments);
    FlatLength(rest);
    assert segments[i].WellFormed() && last.WellFormed();
    HasAtInSum(FlatOf(rest), last.Data(), segments[i].logicalStart, segments[i].Data());
    if i < n - 1 {
      assert rest[i] == segments[i];
      SegmentInFlat(rest, i);
    }
  }

  /** Bytes taken inside one segment are the bytes of the flat sequence. */
  lemma ReadInSegment(segments: seq<Segment>, i: nat, pos: nat, n: nat)
    requires AllWellFormed(segments) && Tiled(segments) && i < |segments|
    requires segments[i].logicalStart <= pos && pos + n <= segments[i].End()
    ensures segments[i].WellFormed() && pos + n <= |FlatOf(segments)|
    ensures var p := segments[i].physStart + pos - segments[i].logicalStart;
      p + n <= |segments[i].file.data| && segments[i].file.data[p..p + n] == FlatOf(segments)[pos..pos + n]
  {
    hide FlatOf, AllWellFormed, Tiled, HasAt;
    SegmentInFlat(segments, i);
    var s, off := segments[i], pos - segments[i].logicalStart;
    hide Segment.WellFormed;
    SameStretch(FlatOf(segments), s.file.data, s.logicalStart, s.physStart, off, n);
  }

  lemma SameStretch(flat: bytes, data: bytes, start: nat, phys: nat, off: nat, n: nat)
    requires phys <= |data| && HasAt(flat, start, data[phys..]) && off + n <= |data| - phys
    ensures start + off + n <= |flat|
    ensures data[phys + off..phys + off + n] == flat[start + off..start + off + n]
  {
    assert data[phys..] == data[phys..|data|];
    SliceOfSlice(flat, start, start + |data| - phys, off, off + n);
    SliceOfSlice(data, phys, |data|, off, off + n);
  }

  lemma SliceOfSlice(s: bytes, a: nat, b: nat, i: nat, j: nat)
    requires a <= b <= |s| && i <= j <= b - a
    ensures s[a..b][i..j] == s[a + i..a + j]
  {
    var l, r := s[a..b][i..j], s[a + i..a + j];
    assert |l| == |r|;
    forall k | 0 <= k < |l| ensures l[k] == r[k] {
      assert l[k] == s[a..b][i + k];
    }
  }

  lemma NextStart(segments: seq<Segment>, i: nat)
    requires Tiled(segments) && i < |segments|
    ensures segments[i].logicalStart == if i == 0 then 0 else segments[i - 1].End()
  {
  }

  datatype SeekFrom = FromStart(p: nat) | FromCurrent(delta: int) | FromEnd(delta: int)

  /** Two's-complement reading of the low 64 bits (`as i64`, and `i64` sums in release builds). */
  function I64(x: int): (r: int)
    ensures -TWO_63 <= r < TWO_63
    ensures -TWO_63 <= x < TWO_63 ==> r == x
  {
    (x + TWO_63) % TWO_64 - TWO_63
  }

  class MultiVolumeReader {
    const segments: seq<Segment>
    const totalSize: nat
    var current: nat
    var logicalPos: nat

    ghost predicate Shaped() {
      && segments != [] && AllWellFormed(segments) && Tiled(segments)
      && totalSize == segments[|segments| - 1].End()
    }

    /** The byte sequence this reader presents; it never changes. */
    ghost function Flat(): bytes
      requires Shaped()
    {
      FlatOf(segments)
    }

    ghost function Files(): set<object> {
      set s | s in segments :: s.file
    }

    /** The current segment holds the position, and its file stands where the position says. */
    ghost predicate Valid()
      reads this, Files()
    {
      && Shaped()
      && current <= |segments|
      && (current == |segments| ==> logicalPos >= totalSize)
      && (current < |segments| ==>
            var s := segments[current];
            && s.logicalStart <= logicalPos
            && s.file.pos == s.physStart + logicalPos - s.logicalStart
            && (current + 1 < |segments| ==> logicalPos <= s.End()))
    }

    constructor (segments: seq<Segment>)
      requires segments != [] && AllWellFormed(segments) && Tiled(segments)
      requires segments[0].file.pos == segments[0].physStart
      ensures Valid() && this.segments == segments && logicalPos == 0
    {
      this.segments := segments;
      totalSize := segments[|segments| - 1].End();
      current := 0;
      logicalPos := 0;
      new;
      assert segments[0].logicalStart == 0;
    }

    /** `read`: some of the bytes at the position; none only at the end or for an empty buffer. */
    method Read(buf: array<byte>, lo: nat, hi: nat) returns (n: nat)
      requires Valid() && lo <= hi <= buf.Length
      modifies this, Files(), buf
      ensures Valid()
      ensures n <= hi - lo && logicalPos == old(logicalPos) + n
      ensures n == 0 <==> lo == hi || old(logicalPos) >= |Flat()|
      ensures n > 0 ==> logicalPos <= |Flat()| && buf[lo..lo + n] == Flat()[old(logicalPos)..logicalPos]
      ensures buf[..lo] == old(buf[..lo]) && buf[lo + n..] == old(buf[lo + n..])
    {
      hide FlatOf, AllWellFormed, Tiled, Segment.WellFormed;
      FlatLength(segments);
      while true
        invariant Valid() && logicalPos == old(logicalPos) && buf[..] == old(buf[..])
        decreases |segments| - current
      {
        if current >= |segments| {
          return 0;
        }
        if logicalPos >= segments[current].End() {
          current := current + 1;
          if current >= |segments| {
            return 0;
          }
          NextStart(segments, current);
          segments[current].file.Seek(segments[current].physStart);
          continue;
        }
        n := ReadHere(buf, lo, hi);
        return n;
      }
    }

    /** The part of `read` that has found its segment. */
    method ReadHere(buf: array<byte>, lo: nat, hi: nat) returns (n: nat)
      requires Valid() && lo <= hi <= buf.Length
      requires current < |segments| && logicalPos < segments[current].End()
      modifies this`logicalPos, Files(), buf
      ensures Valid()
      ensures n <= hi - lo && logicalPos == old(logicalPos) + n <= |Flat()|
      ensures n == 0 <==> lo == hi
      ensures buf[lo..lo + n] == Flat()[old(logicalPos)..logicalPos]
      ensures buf[..lo] == old(buf[..lo]) && buf[lo + n..] == old(buf[lo + n..])
    {
      hide FlatOf, AllWellFormed, Tiled, Segment.WellFormed;
      var seg := segments[current];
      var remaining := seg.End() - logicalPos;
      ReadInSegment(segments, current, logicalPos, remaining);
      var toRead := if remaining < hi - lo then remaining else hi - lo;
      n := seg.file.Read(buf, lo, lo + toRead);
      ReadInSegment(segments, current, logicalPos, n);
      logicalPos := logicalPos + n;
    }

    /** `seek`: any position from 0 on is accepted, also one beyond the end. */
    method Seek(from: SeekFrom) returns (r: Result<nat>)
      requires Valid()
      modifies this, Files()
      ensures Valid()
      ensures var target := Target(from, old(logicalPos), totalSize);
        if target < 0 then r == Err(Io) && logicalPos == old(logicalPos)
        else
          && r == Ok(target) && logicalPos == target && current < |segments|
          && (forall i :: 0 <= i < current ==> segments[i].End() <= target)
          && (target < totalSize ==> target < segments[current].End())
    {
      hide FlatOf, AllWellFormed, Segment.WellFormed, I64, Tiled;
      var target := match from
        case FromStart(p) => I64(p)
        case FromCurrent(delta) => I64(I64(logicalPos) + delta)
        case FromEnd(delta) => I64(I64(totalSize) + delta);
      if target < 0 {
        return Err(Io);
      }
      logicalPos := target;
      var idx := 0;
      while idx < |segments| && target >= segments[idx].End()
        invariant 0 <= idx <= |segments|
        invariant forall i :: 0 <= i < idx ==> segments[i].End() <= target
      {
        idx := idx + 1;
      }
      if idx == |segments| {
        idx := |segments| - 1;
      }
      NextStart(segments, idx);
      current := idx;
      var seg := segments[idx];
      var offsetInSeg := if target < seg.logicalStart then 0 else target - seg.logicalStart;
      seg.file.Seek(seg.physStart + offsetInSeg);
      return Ok(logicalPos);
    }

    /** `read_exact`: fills the whole range, or fails because the archive ends inside it. */
    method ReadExact(buf: array<byte>, lo: nat, hi: nat) returns (ok: bool)
      requires Valid() && lo <= hi <= buf.Length
      modifies this, Files(), buf
      ensures Valid()
      ensures ok <==> lo == hi || old(logicalPos) + (hi - lo) <= |Flat()|
      ensures ok ==> logicalPos == old(logicalPos) + (hi - lo)
      ensures ok && lo < hi ==> buf[lo..hi] == Flat()[old(logicalPos)..logicalPos]
      ensures buf[..lo] == old(buf[..lo]) && buf[hi..] == old(buf[hi..])
    {
      hide FlatOf, Shaped;
      var at := lo;
      while at < hi
        invariant Valid() && lo <= at <= hi
        invariant logicalPos == old(logicalPos) + (at - lo)
        invariant at > lo ==> logicalPos <= |Flat()| && buf[lo..at] == Flat()[old(logicalPos)..logicalPos]
        invariant buf[..lo] == old(buf[..lo]) && buf[hi..] == old(buf[hi..])
      {
        ghost var was, p := buf[..], logicalPos;
        var n := Read(buf, at, hi);
        if n == 0 {
          return false;
        }
        Extended(was, buf[..], lo, at, n, hi);
        assert buf[lo..at + n] == buf[lo..at] + buf[at..at + n];
        at := at + n;
      }
      return true;
    }

    /** `take(n).read_to_end`: the next n bytes, or as many as there are. */
    method ReadUpTo(n: nat) returns (got: bytes)
      requires Valid()
      modifies this, Files()
      ensures Valid() && logicalPos == old(logicalPos) + |got|
      ensures got == Window(Flat(), old(logicalPos), n)
    {
      hide FlatOf, Shaped, Window;
      WindowEmpty(Flat(), logicalPos);
      got := [];
      var chunk := new byte[32];
      while |got| < n
        invariant Valid() && |got| <= n && logicalPos == old(logicalPos) + |got|
        invariant got == Window(Flat(), old(logicalPos), |got|)
        invariant fresh(chunk) && chunk.Length == 32
      {
        var want := if n - |got| < 32 then n - |got| else 32;
        var k := Read(chunk, 0, want);
        if k == 0 {
          WindowAtEnd(Flat(), old(logicalPos), |got|, n);
          return;
        }
        assert chunk[0..k] == chunk[..k];
        WindowGrows(Flat(), old(logicalPos), |got|, k);
        got := got + chunk[..k];
      }
    }
  }

  /** Overwriting a stretch in the middle of a range keeps what stands before it and after the range. */
  lemma Extended(was: bytes, now: bytes, lo: nat, at: nat, n: nat, hi: nat)
    requires lo <= at && at + n <= hi <= |was| == |now|
    requires now[..at] == was[..at] && now[at + n..] == was[at + n..]
    ensures now[..lo] == was[..lo] && now[hi..] == was[hi..] && now[lo..at] == was[lo..at]
  {
    assert now[lo..at] == now[..at][lo..] && was[lo..at] == was[..at][lo..];
    assert now[..lo] == now[..at][..lo] && was[..lo] == was[..at][..lo];
    assert now[hi..] == now[at + n..][hi - at - n..] && was[hi..] == was[at + n..][hi - at - n..];
  }

  /** At most n bytes of s from position p. */
  function Window(s: bytes, p: nat, n: nat): bytes {
    if p >= |s| then [] else if p + n <= |s| then s[p..p + n] else s[p..]
  }

  lemma WindowEmpty(s: bytes, p: nat)
    ensures Window(s, p, 0) == []
  {
  }

  /** A window that ends at the end of s does not grow. */
  lemma WindowAtEnd(s: bytes, p: nat, k: nat, n: nat)
    requires k <= n && p + k >= |s|
    ensures Window(s, p, k) == Window(s, p, n)
  {
  }

  lemma WindowGrows(s: bytes, p: nat, k: nat, j: nat)
    requires p + k + j <= |s| && j > 0
    ensures Window(s, p, k) + s[p + k..p + k + j] == Window(s, p, k + j) && |Window(s, p, k)| == k
  {
  }

  function Target(from: SeekFrom, pos: nat, total: nat): int {
    match from
    case FromStart(p) => I64(p)
    case FromCurrent(delta) => I64(I64(pos) + delta)
    case FromEnd(delta) => I64(I64(total) + delta)
  }

  /** Seeking by nothing asks for the position the reader already has. */
  lemma SeekHere(pos: nat, total: nat)
    requires pos < TWO_63
    ensures Target(FromCurrent(0), pos, total) == pos && Target(FromStart(pos), pos, total) == pos
  {
  }
}
