/** Facts about tilings: tiles and pieces are the same thing, and distinct targets keep each its own tile. */
module SolidTiling {
  import ArchiveFormat
  import Crc32
  import opened Bytes
  import opened Errors
  import opened Disk
  import opened SolidPlan

  predicate Sized(sizes: seq<nat>, pieces: seq<bytes>) {
    |sizes| == |pieces| && forall k :: 0 <= k < |sizes| ==> |pieces[k]| == sizes[k]
  }

  lemma {:induction false} FlattenedBefore(sizes: seq<nat>, pieces: seq<bytes>, k: nat)
    requires Sized(sizes, pieces) && k <= |sizes|
    ensures |Flatten(pieces[..k])| == Off(sizes, k)
  {
    if k > 0 {
      FlattenedBefore(sizes, pieces, k - 1);
      SplitLast(pieces, k);
    }
  }

  lemma SplitLast(pieces: seq<bytes>, k: nat)
    requires 0 < k <= |pieces|
    ensures Flatten(pieces[..k]) == Flatten(pieces[..k - 1]) + pieces[k - 1]
  {
    FlattenAppend(pieces[..k - 1], [pieces[k - 1]]);
    assert pieces[..k] == pieces[..k - 1] + [pieces[k - 1]];
    assert [pieces[k - 1]][1..] == [];
    assert Flatten([pieces[k - 1]]) == pieces[k - 1];
  }

  /** Pieces of the given sizes, joined, have the sizes' total, and their tiles are the pieces. */
  lemma TileOfPieces(sizes: seq<nat>, pieces: seq<bytes>, k: nat)
    requires Sized(sizes, pieces)
    ensures |Flatten(pieces)| == Total(sizes)
    ensures k < |sizes| ==> Tile(sizes, k, Flatten(pieces)) == pieces[k]
  {
    FlattenedBefore(sizes, pieces, |sizes|);
    assert pieces[..|sizes|] == pieces;
    if k < |sizes| {
      FlattenedBefore(sizes, pieces, k);
      SplitLast(pieces, k + 1);
      FlattenAppend(pieces[..k + 1], pieces[k + 1..]);
      assert pieces == pieces[..k + 1] + pieces[k + 1..];
      var front, piece, rest := Flatten(pieces[..k]), pieces[k], Flatten(pieces[k + 1..]);
      assert Flatten(pieces) == front + piece + rest;
      MiddleOf(front, piece, rest);
    }
  }

  lemma MiddleOf(front: bytes, piece: bytes, rest: bytes)
    ensures (front + piece + rest)[|front|..|front| + |piece|] == piece
  {
  }

  function Tiles(sizes: seq<nat>, stream: bytes): (r: seq<bytes>)
    ensures |r| == |sizes| && forall k :: 0 <= k < |r| ==> r[k] == Tile(sizes, k, stream)
  {
    seq(|sizes|, k requires 0 <= k < |sizes| => Tile(sizes, k, stream))
  }

  /** Conservation: a stream of the right length is exactly its tiles in order, none lost and none overlapping. */
  lemma TilesRebuild(sizes: seq<nat>, stream: bytes)
    requires |stream| == Total(sizes)
    ensures Sized(sizes, Tiles(sizes, stream)) && Flatten(Tiles(sizes, stream)) == stream
  {
    forall k | 0 <= k < |sizes| ensures |Tiles(sizes, stream)[k]| == sizes[k] {
      OffMonotone(sizes, k + 1, |sizes|);
    }
    TilesBefore(sizes, stream, |sizes|);
    assert Tiles(sizes, stream)[..|sizes|] == Tiles(sizes, stream) && stream[..Total(sizes)] == stream;
  }

  lemma {:induction false} TilesBefore(sizes: seq<nat>, stream: bytes, k: nat)
    requires |stream| == Total(sizes) && k <= |sizes|
    ensures Off(sizes, k) <= |stream| && Flatten(Tiles(sizes, stream)[..k]) == stream[..Off(sizes, k)]
  {
    OffMonotone(sizes, k, |sizes|);
    if k > 0 {
      TilesBefore(sizes, stream, k - 1);
      SplitLast(Tiles(sizes, stream), k);
      assert stream[..Off(sizes, k)] == stream[..Off(sizes, k - 1)] + stream[Off(sizes, k - 1)..Off(sizes, k)];
    }
  }

  /** A stream determines its pieces: there is one way to cut it to the given sizes. */
  lemma CutIsUnique(sizes: seq<nat>, a: seq<bytes>, b: seq<bytes>)
    requires Sized(sizes, a) && Sized(sizes, b) && Flatten(a) == Flatten(b)
    ensures a == b
  {
    forall k | 0 <= k < |sizes| ensures a[k] == b[k] {
      TileOfPieces(sizes, a, k);
      TileOfPieces(sizes, b, k);
    }
  }

  // ---------- what is on disk afterwards ----------

  /** No two selected files go to the same path. */
  ghost predicate DistinctTargets(p: Plan)
    requires p.Valid()
  {
    forall i, j :: 0 <= i < j < |p.fileSpans| && p.Selected(i) && p.Selected(j) && p.Target(i).Ok? && p.Target(j).Ok?
      ==> p.Target(i).value != p.Target(j).value
  }

  /** A path that is no target of the first m spans is as before. */
  lemma {:induction false} WrittenElsewhere(p: Plan, before: Output, m: nat, stream: bytes, q: Path)
    requires p.Valid() && m <= |p.fileSpans|
    requires forall j :: 0 <= j < m ==> q !in NewPath(p, j)
    ensures q in Written(p, before, m, stream).files <==> q in before.files
    ensures q in before.files ==> Written(p, before, m, stream).files[q] == before.files[q]
  {
    hide Tile, SafeJoin;
    if m > 0 {
      WrittenElsewhere(p, before, m - 1, stream, q);
      assert q !in NewPath(p, m - 1);
    }
  }

  /** Each selected file exists and holds exactly its slice of the stream; unselected files get nothing. */
  lemma {:induction false} SliceOnDisk(p: Plan, before: Output, m: nat, stream: bytes, j: nat)
    requires p.Valid() && j < m <= |p.fileSpans| && DistinctTargets(p)
    requires p.Selected(j) && !p.pipeMode && p.Target(j).Ok?
    ensures var o := Written(p, before, m, stream);
      p.Target(j).value in o.files && o.files[p.Target(j).value] == Tile(p.FileSizes(), j, stream)
  {
    hide Tile, SafeJoin, ShouldExtract;
    if j < m - 1 {
      SliceOnDisk(p, before, m - 1, stream, j);
    }
  }

  /** In pipe mode the output is the slices of the selected files, in order. */
  function Piped(p: Plan, m: nat, stream: bytes): bytes
    requires p.Valid() && m <= |p.fileSpans|
  {
    if m == 0 then []
    else Piped(p, m - 1, stream) + (if p.Selected(m - 1) then Tile(p.FileSizes(), m - 1, stream) else [])
  }

  lemma {:induction false} SlicesPiped(p: Plan, before: Output, m: nat, stream: bytes)
    requires p.Valid() && m <= |p.fileSpans| && p.pipeMode
    ensures Written(p, before, m, stream) == before.(stdout := before.stdout + Piped(p, m, stream))
  {
    hide Tile, SafeJoin, ShouldExtract;
    if m == 0 {
      assert before.stdout + [] == before.stdout;
    } else {
      SlicesPiped(p, before, m - 1, stream);
      var done, tile := Piped(p, m - 1, stream), Tile(p.FileSizes(), m - 1, stream);
      assert before.stdout + done + tile == before.stdout + (done + tile);
      assert done + [] == done;
    }
  }

  ghost predicate NoRepeats(paths: seq<Path>) {
    forall a, b :: 0 <= a < b < |paths| ==> paths[a] != paths[b]
  }

  /** Every file is created at most once; exactly the selected files' targets are created, in the archive's order. */
  lemma {:induction false} CreatedOnce(p: Plan, m: nat)
    requires p.Valid() && m <= |p.fileSpans| && DistinctTargets(p)
    ensures NoRepeats(CreatedPaths(p, m))
    ensures forall q :: q in CreatedPaths(p, m) <==> exists j :: 0 <= j < m && q in NewPath(p, j)
  {
    hide NewPath, DistinctTargets, NoRepeats;
    if m == 0 {
      assert NoRepeats([]) by { NothingRepeats(); }
    } else {
      CreatedOnce(p, m - 1);
      var was, new' := CreatedPaths(p, m - 1), NewPath(p, m - 1);
      NewInOrder(p, m - 1, was);
      CreatedSoFar(p, m - 1, was);
    }
  }

  lemma NothingRepeats()
    ensures NoRepeats([])
  {
  }

  lemma CreatedSoFar(p: Plan, m: nat, was: seq<Path>)
    requires p.Valid() && m < |p.fileSpans|
    requires forall q :: q in was <==> exists j :: 0 <= j < m && q in NewPath(p, j)
    ensures forall q :: q in was + NewPath(p, m) <==> exists j :: 0 <= j < m + 1 && q in NewPath(p, j)
  {
    hide NewPath;
    forall q ensures q in was + NewPath(p, m) <==> exists j :: 0 <= j < m + 1 && q in NewPath(p, j) {
      if q in was {
        var j :| 0 <= j < m && q in NewPath(p, j);
      }
    }
  }

  lemma NewInOrder(p: Plan, m: nat, was: seq<Path>)
    requires p.Valid() && m < |p.fileSpans| && DistinctTargets(p) && NoRepeats(was)
    requires forall q :: q in was <==> exists j :: 0 <= j < m && q in NewPath(p, j)
    ensures NoRepeats(was + NewPath(p, m))
  {
    hide SafeJoin, ShouldExtract;
    forall q | q in NewPath(p, m) ensures q !in was {
      assert forall j :: 0 <= j < m ==> q !in NewPath(p, j);
    }
    var all := was + NewPath(p, m);
    forall a, b | 0 <= a < b < |all| ensures all[a] != all[b] {
      assert all[a] in was;
      assert b >= |was| ==> all[b] in NewPath(p, m);
    }
  }

  /**
   An empty CRC span at the end is never closed: a stream whose every byte is right is still refused. (In the
   middle the same span would be harmless.)
   */
  lemma TrailingEmptySpan(p: Plan, stream: bytes)
    requires p.Valid() && p.crcSpans != [] && p.crcSpans[|p.crcSpans| - 1].size == 0
    ensures !Complete(p, stream)
  {
  }

  lemma TrailingEmptySpanExample(e: ArchiveFormat.EggFileEntry)
    ensures var right := Plan([FileSpan(0, 1)], [CrcSpan(1, Crc32.Checksum([65]))], [e], [], Some([]), false);
      var middle := right.(crcSpans := [CrcSpan(0, Crc32.Checksum([]))] + right.crcSpans);
      var trailing := right.(crcSpans := right.crcSpans + [CrcSpan(0, Crc32.Checksum([]))]);
      right.Valid() && middle.Valid() && trailing.Valid()
      && Complete(right, [65]) && Complete(middle, [65]) && !Complete(trailing, [65])
  {
    hide Crc32.Checksum;
    var right := Plan([FileSpan(0, 1)], [CrcSpan(1, Crc32.Checksum([65]))], [e], [], Some([]), false);
    var middle := right.(crcSpans := [CrcSpan(0, Crc32.Checksum([]))] + right.crcSpans);
    TileOfPieces(right.FileSizes(), [[65]], 0);
    TileOfPieces(right.CrcSizes(), [[65]], 0);
    TileOfPieces(middle.CrcSizes(), [[], [65]], 0);
    TileOfPieces(middle.CrcSizes(), [[], [65]], 1);
    assert Flatten([[65 as byte]]) == [65] by { assert [[65 as byte]][1..] == []; }
    assert Flatten([[], [65 as byte]]) == [65] by { assert [[], [65 as byte]][1..] == [[65]]; }
  }
}
