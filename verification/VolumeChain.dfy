/** Finding and chaining the volumes of a split archive: `try_open` and the header scanners of src/volume.rs. */
module VolumeChain {
  import opened Bytes
  import opened Errors
  import opened ArchiveFormat
  import opened VolumeReader

  // ---------- what the scanners find, on values ----------

  /** `quick_header_id`. */
  function QuickHeaderId(v: bytes): Option<nat> {
    if |v| >= 10 && Num(v, 0, 4) == Ok(SIG_EGG_HEADER) then Some(LeValue(v[6..10])) else None
  }

  /** `find_volume_by_id`: the first file of the listing with that ID. */
  function FindVolume(dir: seq<bytes>, id: nat): (r: Result<bytes>)
    ensures r.Ok? ==> r.value in dir && QuickHeaderId(r.value) == Some(id)
    ensures r.Err? ==> forall v :: v in dir ==> QuickHeaderId(v) != Some(id)
  {
    if dir == [] then Err(CantOpenFile)
    else if QuickHeaderId(dir[0]) == Some(id) then Ok(dir[0])
    else FindVolume(dir[1..], id)
  }

  /** The loop of `read_split_info`: the first split record before the end marker. */
  function SplitScan(s: bytes, p: nat): Result<Option<SplitInfo>>
    decreases |s| - p
  {
    var sig :- Num(s, p, 4);
    if sig == SIG_END_MARKER then Ok(None)
    else
      var e :- ExtraField(s, p + 4);
      if sig == SIG_SPLIT_INFO then
        var prev :- Num(s, e.next, 4);
        var next :- Num(s, e.next + 4, 4);
        Ok(Some(SplitInfo(prev, next)))
      else SplitScan(s, e.next + e.size)
  }

  /** `read_split_info`. */
  function SplitInfoOf(v: bytes): Result<Option<SplitInfo>> {
    if Num(v, 0, 4) != Ok(SIG_EGG_HEADER) then Ok(None) else SplitScan(v, 14)
  }

  /** The loop of `skip_continuation_header`: where the prefix section ends. */
  function SkipScan(s: bytes, p: nat): (r: Result<nat>)
    ensures r.Ok? ==> r.value <= |s|
    decreases |s| - p
  {
    var sig :- Num(s, p, 4);
    if sig == SIG_END_MARKER then Ok(p + 4)
    else
      var e :- ExtraField(s, p + 4);
      SkipScan(s, e.next + e.size)
  }

  /** `skip_continuation_header`. */
  function ContinuationStart(v: bytes): (r: Result<nat>)
    ensures r.Ok? ==> r.value <= |v|
  {
    var sig :- Num(v, 0, 4);
    if sig != SIG_EGG_HEADER then Err(NotEggFile) else SkipScan(v, 14)
  }

  const MAX_VOLUMES := 10_000

  /** One continuation volume of the chain: its ID, its bytes, where its data starts, and the next ID. */
  datatype Link = Link(id: nat, volume: bytes, start: nat, next: nat) {
    ghost predicate WellFormed() {
      start <= |volume|
    }
  }

  function NextOf(split: Option<SplitInfo>): nat {
    if split.None? then 0 else split.value.nextId
  }

  /** The link an ID leads to. */
  function LinkTo(dir: seq<bytes>, id: nat): (r: Result<Link>)
    ensures r.Ok? ==> r.value.id == id && r.value.WellFormed()
    ensures r.Ok? ==> r.value.volume in dir && QuickHeaderId(r.value.volume) == Some(id)
  {
    var v :- FindVolume(dir, id);
    var start :- ContinuationStart(v);
    var split :- SplitInfoOf(v);
    Ok(Link(id, v, start, NextOf(split)))
  }

  /** The chain from ID `next`, with the IDs met before and the number of segments so far. */
  function Chain(dir: seq<bytes>, next: nat, seen: set<nat>, n: nat): (r: Result<seq<Link>>)
    decreases Minus(MAX_VOLUMES, n)
  {
    if next == 0 then Ok([])
    else if next in seen || n >= MAX_VOLUMES then Err(CorruptedFile)
    else
      var link :- LinkTo(dir, next);
      var rest :- Chain(dir, link.next, seen + {next}, n + 1);
      Ok([link] + rest)
  }

  function SeenFirst(first: bytes): set<nat> {
    match QuickHeaderId(first)
    case Some(id) => {id}
    case None => {}
  }

  /** `try_open` on values: the continuation links, or nothing when the archive is not split. */
  function Volumes(dir: seq<bytes>, first: bytes): Result<Option<seq<Link>>> {
    var split :- SplitInfoOf(first);
    if NextOf(split) == 0 then Ok(None)
    else
      var links :- Chain(dir, NextOf(split), SeenFirst(first), 1);
      Ok(Some(links))
  }

  /** The data the links contribute, in chain order. */
  function Pieces(links: seq<Link>): bytes
    requires forall l :: l in links ==> l.WellFormed()
  {
    if links == [] then []
    else
      assert links[0].WellFormed();
      links[0].volume[links[0].start..] + Pieces(links[1..])
  }

  // ---------- what a chain that opens is like ----------

  /** Each volume points to the next one, the last to none. */
  predicate Linked(links: seq<Link>)
    decreases |links|
  {
    links == [] || (links[0].next == (if |links| > 1 then links[1].id else 0) && Linked(links[1..]))
  }

  /** IDs of a chain are never zero, never repeated, never among those met before; the length is capped. */
  lemma {:induction false} ChainIsSimple(dir: seq<bytes>, next: nat, seen: set<nat>, n: nat)
    requires Chain(dir, next, seen, n).Ok? && n <= MAX_VOLUMES
    ensures var links := Chain(dir, next, seen, n).value;
      && n + |links| <= MAX_VOLUMES
      && (forall l :: l in links ==> l.WellFormed() && l.id != 0 && l.id !in seen
                                     && l.volume in dir && QuickHeaderId(l.volume) == Some(l.id))
      && (forall i, j :: 0 <= i < j < |links| ==> links[i].id != links[j].id)
      && Linked(links)
      && (links != [] ==> links[0].id == next)
      && (links == [] ==> next == 0)
    decreases Minus(MAX_VOLUMES, n)
  {
    hide LinkTo, QuickHeaderId;
    if next != 0 {
      var link := LinkTo(dir, next).value;
      ChainIsSimple(dir, link.next, seen + {next}, n + 1);
      var rest := Chain(dir, link.next, seen + {next}, n + 1).value;
      var links := [link] + rest;
      assert Chain(dir, next, seen, n).value == links && links[1..] == rest;
      assert forall i :: 0 < i < |links| ==> links[i] == rest[i - 1] && links[i] in rest;
    }
  }

  predicate Opens(dir: seq<bytes>, id: nat) {
    LinkTo(dir, id).Ok?
  }

  /** The ID a volume points to. */
  function After(dir: seq<bytes>, id: nat): nat {
    if LinkTo(dir, id).Ok? then LinkTo(dir, id).value.next else 0
  }

  /** k volumes open one after the other from `next` on. */
  predicate Walks(dir: seq<bytes>, next: nat, k: nat)
    decreases k
  {
    k == 0 || (next != 0 && Opens(dir, next) && Walks(dir, After(dir, next), k - 1))
  }

  /** The ID such a walk arrives at. */
  function Reached(dir: seq<bytes>, next: nat, k: nat): nat
    decreases k
  {
    if k == 0 then next else Reached(dir, After(dir, next), k - 1)
  }

  /** The IDs it passed. */
  function Met(dir: seq<bytes>, next: nat, k: nat): set<nat>
    decreases k
  {
    if k == 0 then {} else {next} + Met(dir, After(dir, next), k - 1)
  }

  /** A walk that comes back to an ID it passed, or to the first volume, ends in CorruptedFile, cap or no cap. */
  lemma {:induction false} RevisitIsCorrupted(dir: seq<bytes>, next: nat, seen: set<nat>, n: nat, k: nat)
    requires Walks(dir, next, k) && Reached(dir, next, k) != 0
    requires Reached(dir, next, k) in seen + Met(dir, next, k)
    ensures Chain(dir, next, seen, n) == Err(CorruptedFile)
    decreases k
  {
    hide Walks, Reached, Met, Chain, After, Opens;
    OneWalk(dir, next, k);
    OneLink(dir, next, seen, n);
    if k > 0 && next !in seen && n < MAX_VOLUMES {
      RevisitIsCorrupted(dir, After(dir, next), seen + {next}, n + 1, k - 1);
    }
  }

  lemma OneWalk(dir: seq<bytes>, next: nat, k: nat)
    ensures k == 0 ==> Reached(dir, next, k) == next && Met(dir, next, k) == {}
    ensures k > 0 ==> Reached(dir, next, k) == Reached(dir, After(dir, next), k - 1)
    ensures k > 0 ==> Met(dir, next, k) == {next} + Met(dir, After(dir, next), k - 1)
    ensures k > 0 && Walks(dir, next, k) ==> next != 0 && Opens(dir, next) && Walks(dir, After(dir, next), k - 1)
  {
    hide After, Opens;
  }

  lemma OneLink(dir: seq<bytes>, next: nat, seen: set<nat>, n: nat)
    requires next != 0
    ensures next in seen || n >= MAX_VOLUMES ==> Chain(dir, next, seen, n) == Err(CorruptedFile)
    ensures next !in seen && n < MAX_VOLUMES && Opens(dir, next)
            && Chain(dir, After(dir, next), seen + {next}, n + 1) == Err(CorruptedFile)
       ==> Chain(dir, next, seen, n) == Err(CorruptedFile)
  {
    hide LinkTo;
  }

  /** The walk meets no ID twice, nor one of these. */
  ghost predicate Fresh(dir: seq<bytes>, next: nat, seen: set<nat>, k: nat) {
    forall j :: 0 <= j < k ==> Reached(dir, next, j) !in seen + Met(dir, next, j)
  }

  /** Under the cap, the chain is its walk and then the chain from there. */
  lemma {:induction false} ChainAfterWalk(dir: seq<bytes>, next: nat, seen: set<nat>, n: nat, k: nat)
    requires Walks(dir, next, k) && Fresh(dir, next, seen, k) && n + k <= 10_000
    ensures var rest := Chain(dir, Reached(dir, next, k), seen + Met(dir, next, k), n + k);
      && (rest.Err? ==> Chain(dir, next, seen, n) == rest)
      && (rest.Ok? ==> Chain(dir, next, seen, n).Ok? && |Chain(dir, next, seen, n).value| == k + |rest.value|)
    decreases k
  {
    hide Walks, Reached, Met, Chain, After, Opens, Fresh;
    OneWalk(dir, next, k);
    if k == 0 {
      assert seen + {} == seen;
    } else {
      FreshNext(dir, next, seen, k);
      ChainAfterWalk(dir, After(dir, next), seen + {next}, n + 1, k - 1);
      assert seen + {next} + Met(dir, After(dir, next), k - 1) == seen + Met(dir, next, k);
      OpenLink(dir, next, seen, n);
    }
  }

  lemma FreshNext(dir: seq<bytes>, next: nat, seen: set<nat>, k: nat)
    requires k > 0 && Fresh(dir, next, seen, k)
    ensures next !in seen && Fresh(dir, After(dir, next), seen + {next}, k - 1)
  {
    hide Walks, Reached, Met, After;
    OneWalk(dir, next, 0);
    assert next == Reached(dir, next, 0);
    forall j | 0 <= j < k - 1
      ensures Reached(dir, After(dir, next), j) !in seen + {next} + Met(dir, After(dir, next), j)
    {
      OneWalk(dir, next, j + 1);
    }
  }

  lemma OpenLink(dir: seq<bytes>, next: nat, seen: set<nat>, n: nat)
    requires next != 0 && next !in seen && n < 10_000 && Opens(dir, next)
    ensures var rest := Chain(dir, After(dir, next), seen + {next}, n + 1);
      && (rest.Err? ==> Chain(dir, next, seen, n) == rest)
      && (rest.Ok? ==> Chain(dir, next, seen, n).Ok? && |Chain(dir, next, seen, n).value| == 1 + |rest.value|)
  {
    hide LinkTo;
  }

  /** A chain opens exactly if some walk of at most 10000 volumes with the first one ends and meets no ID twice. */
  lemma ChainOpensIff(dir: seq<bytes>, next: nat, seen: set<nat>, n: nat)
    requires n <= 10_000
    ensures Chain(dir, next, seen, n).Ok? <==> exists k :: EndsAfter(dir, next, seen, n, k)
  {
    hide Walks, Reached, Met, Fresh;
    if Chain(dir, next, seen, n).Ok? {
      WalkOfChain(dir, next, seen, n);
      assert EndsAfter(dir, next, seen, n, |Chain(dir, next, seen, n).value|);
    }
    if exists k :: EndsAfter(dir, next, seen, n, k) {
      var k :| EndsAfter(dir, next, seen, n, k);
      ChainAfterWalk(dir, next, seen, n, k);
    }
  }

  ghost predicate EndsAfter(dir: seq<bytes>, next: nat, seen: set<nat>, n: nat, k: nat) {
    Walks(dir, next, k) && Reached(dir, next, k) == 0 && Fresh(dir, next, seen, k) && n + k <= 10_000
  }

  lemma {:induction false} WalkOfChain(dir: seq<bytes>, next: nat, seen: set<nat>, n: nat)
    requires n <= 10_000 && Chain(dir, next, seen, n).Ok?
    ensures EndsAfter(dir, next, seen, n, |Chain(dir, next, seen, n).value|)
    decreases 10_000 - n
  {
    hide Chain, Walks, Reached, Met, Fresh, Opens, After;
    FirstOpened(dir, next, seen, n);
    var k := |Chain(dir, next, seen, n).value|;
    OneWalk(dir, next, k);
    if next != 0 {
      WalkOfChain(dir, After(dir, next), seen + {next}, n + 1);
      WalkStarts(dir, next, k);
      FreshBefore(dir, next, seen, k);
    } else {
      NothingMet(dir, next, seen);
    }
  }

  lemma FirstOpened(dir: seq<bytes>, next: nat, seen: set<nat>, n: nat)
    requires Chain(dir, next, seen, n).Ok?
    ensures next == 0 ==> Chain(dir, next, seen, n).value == []
    ensures next != 0 ==>
      var rest := Chain(dir, After(dir, next), seen + {next}, n + 1);
      && next !in seen && n < 10_000 && Opens(dir, next) && rest.Ok?
      && |Chain(dir, next, seen, n).value| == 1 + |rest.value|
  {
    hide LinkTo;
  }

  lemma WalkStarts(dir: seq<bytes>, next: nat, k: nat)
    requires k > 0 && next != 0 && Opens(dir, next) && Walks(dir, After(dir, next), k - 1)
    ensures Walks(dir, next, k)
  {
    hide After, Opens;
  }

  lemma FreshBefore(dir: seq<bytes>, next: nat, seen: set<nat>, k: nat)
    requires k > 0 && next !in seen && Fresh(dir, After(dir, next), seen + {next}, k - 1)
    ensures Fresh(dir, next, seen, k)
  {
    hide Walks, Reached, Met, After;
    forall j | 0 <= j < k ensures Reached(dir, next, j) !in seen + Met(dir, next, j) {
      OneWalk(dir, next, j);
      if j > 0 {
        assert Reached(dir, After(dir, next), j - 1) !in seen + {next} + Met(dir, After(dir, next), j - 1);
      }
    }
  }

  lemma NothingMet(dir: seq<bytes>, next: nat, seen: set<nat>)
    ensures Walks(dir, next, 0) && Fresh(dir, next, seen, 0)
  {
  }

  lemma {:induction false} NotFound(dir: seq<bytes>, id: nat)
    requires forall v :: v in dir ==> QuickHeaderId(v) != Some(id)
    ensures FindVolume(dir, id) == Err(CantOpenFile)
  {
    hide QuickHeaderId;
    if dir != [] {
      NotFound(dir[1..], id);
    }
  }

  /** A walk that is still new where no file has the ID it arrives at fails with CantOpenFile. */
  lemma MissingVolume(dir: seq<bytes>, next: nat, seen: set<nat>, n: nat, k: nat)
    requires Walks(dir, next, k) && Reached(dir, next, k) != 0 && Fresh(dir, next, seen, k + 1) && n + k < 10_000
    requires forall v :: v in dir ==> QuickHeaderId(v) != Some(Reached(dir, next, k))
    ensures Chain(dir, next, seen, n) == Err(CantOpenFile)
  {
    hide QuickHeaderId, Walks, Reached, Met, ContinuationStart, SplitInfoOf;
    NotFound(dir, Reached(dir, next, k));
    ChainAfterWalk(dir, next, seen, n, k);
  }

  // ---------- the three readers of a prefix section agree ----------

  /** Every split record met by the parser declares at least its eight bytes. */
  predicate SplitSizesOk(s: bytes, p: nat)
    decreases |s| - p
  {
    var sig := Num(s, p, 4);
    if sig.Err? || sig.value == SIG_END_MARKER then true
    else
      var e := ExtraField(s, p + 4);
      e.Ok? ==> (sig.value == SIG_SPLIT_INFO ==> e.value.size >= 8) && SplitSizesOk(s, e.value.next + e.value.size)
  }

  /** The IDs of all split records, in order. */
  function SplitIds(s: bytes, p: nat): seq<SplitInfo>
    decreases |s| - p
  {
    var sig := Num(s, p, 4);
    if sig.Err? || sig.value == SIG_END_MARKER then []
    else
      var e := ExtraField(s, p + 4);
      if e.Err? then []
      else
        var rest := SplitIds(s, e.value.next + e.value.size);
        if sig.value == SIG_SPLIT_INFO && Num(s, e.value.next, 4).Ok? && Num(s, e.value.next + 4, 4).Ok? then
          [SplitInfo(Num(s, e.value.next, 4).value, Num(s, e.value.next + 4, 4).value)] + rest
        else rest
  }

  /** Where `open` accepts the prefix, `skip_continuation_header` finds the same end. */
  lemma {:induction false} SkipScanAgrees(s: bytes, p: nat, acc: Prefix)
    requires ParsePrefix(s, p, acc).Ok? && SplitSizesOk(s, p)
    ensures SkipScan(s, p) == Ok(ParsePrefix(s, p, acc).value.1)
    decreases |s| - p
  {
    hide Num, ExtraField;
    var sig := Num(s, p, 4).value;
    if sig != SIG_END_MARKER {
      var e := ExtraField(s, p + 4).value;
      var acc' := if sig == SIG_SPLIT_INFO
                  then acc.(split := Some(SplitInfo(Num(s, e.next, 4).value, Num(s, e.next + 4, 4).value)))
                  else if sig == SIG_SOLID_INFO then acc.(isSolid := true) else acc;
      SkipScanAgrees(s, e.next + e.size, acc');
    }
  }

  /** `open` keeps the IDs of the last split record. */
  lemma {:induction false} PrefixKeepsLast(s: bytes, p: nat, acc: Prefix)
    requires ParsePrefix(s, p, acc).Ok? && SplitSizesOk(s, p)
    ensures var ids := SplitIds(s, p);
      ParsePrefix(s, p, acc).value.0.split == if ids == [] then acc.split else Some(ids[|ids| - 1])
    decreases |s| - p
  {
    hide Num, ExtraField;
    var sig := Num(s, p, 4).value;
    if sig != SIG_END_MARKER {
      var e := ExtraField(s, p + 4).value;
      var acc' := if sig == SIG_SPLIT_INFO
                  then acc.(split := Some(SplitInfo(Num(s, e.next, 4).value, Num(s, e.next + 4, 4).value)))
                  else if sig == SIG_SOLID_INFO then acc.(isSolid := true) else acc;
      PrefixKeepsLast(s, e.next + e.size, acc');
    }
  }

  /** `read_split_info` takes those of the first. */
  lemma {:induction false} ScanTakesFirst(s: bytes, p: nat, acc: Prefix)
    requires ParsePrefix(s, p, acc).Ok? && SplitSizesOk(s, p)
    ensures var ids := SplitIds(s, p); SplitScan(s, p) == Ok(if ids == [] then None else Some(ids[0]))
    decreases |s| - p
  {
    hide Num, ExtraField;
    var sig := Num(s, p, 4).value;
    if sig != SIG_END_MARKER && sig != SIG_SPLIT_INFO {
      var e := ExtraField(s, p + 4).value;
      ScanTakesFirst(s, e.next + e.size, if sig == SIG_SOLID_INFO then acc.(isSolid := true) else acc);
    }
  }

  /**
   On a prefix section that `open` accepts, with split records of declared size at least 8, `read_split_info` finds
   the IDs that `open` finds exactly when the first and the last split record name the same.
   */
  lemma SplitScanAgrees(s: bytes, p: nat, isSolid: bool)
    requires ParsePrefix(s, p, Prefix(isSolid, None)).Ok? && SplitSizesOk(s, p)
    ensures var ids := SplitIds(s, p);
      SplitScan(s, p) == Ok(ParsePrefix(s, p, Prefix(isSolid, None)).value.0.split)
      <==> ids == [] || ids[0] == ids[|ids| - 1]
  {
    hide ParsePrefix, SplitScan, SplitIds, SplitSizesOk;
    PrefixKeepsLast(s, p, Prefix(isSolid, None));
    ScanTakesFirst(s, p, Prefix(isSolid, None));
  }

  /**
   The size condition is needed: after a split record that declares no bytes, `open` goes on behind the two IDs
   and `skip_continuation_header` on the first of them, so an ID that reads as an end marker parts the two.
   */
  lemma ShortSplitRecordDisagrees(s: bytes, p: nat, e: Extra, next: nat)
    requires Num(s, p, 4) == Ok(SIG_SPLIT_INFO) && ExtraField(s, p + 4) == Ok(e) && e.size == 0
    requires Num(s, e.next, 4) == Ok(SIG_END_MARKER) && Num(s, e.next + 4, 4) == Ok(next)
    requires Num(s, e.next + 8, 4) == Ok(SIG_END_MARKER)
    ensures ParsePrefix(s, p, Prefix(false, None))
         == Ok((Prefix(false, Some(SplitInfo(SIG_END_MARKER, next))), e.next + 12))
    ensures SkipScan(s, p) == Ok(e.next + 4)
  {
    hide Num, ExtraField;
  }

  lemma {:induction false} SkipScanEnds(s: bytes, p: nat)
    ensures SkipScan(s, p).Ok? ==> SkipScan(s, p).value >= p + 4
    decreases |s| - p
  {
    hide Num, ExtraField;
    if Num(s, p, 4).Ok? && Num(s, p, 4).value != SIG_END_MARKER && ExtraField(s, p + 4).Ok? {
      var e := ExtraField(s, p + 4).value;
      SkipScanEnds(s, e.next + e.size);
    }
  }

  lemma ExtraIsLong(s: bytes, p: nat)
    ensures ExtraField(s, p).Ok? ==> ExtraField(s, p).value.next >= p + 3
  {
  }

  /** What stands at position p reads as a record that ends exactly at `end`. */
  predicate ReadsAsRecord(s: bytes, p: nat, end: nat) {
    && Num(s, p, 4).Ok? && Num(s, p, 4).value != SIG_END_MARKER
    && ExtraField(s, p + 4).Ok? && ExtraField(s, p + 4).value.next + ExtraField(s, p + 4).value.size == end
  }

  /**
   A last split record, of any declared size: with fewer than 8 bytes declared, `skip_continuation_header` ends where
   `open` does exactly when the rest of the two IDs reads as a record that ends with them. With 2 to 7 it never does.
   */
  lemma LastSplitRecord(s: bytes, p: nat, e: Extra, acc: Prefix)
    requires Num(s, p, 4) == Ok(SIG_SPLIT_INFO) && ExtraField(s, p + 4) == Ok(e)
    requires Num(s, e.next, 4).Ok? && Num(s, e.next + 4, 4).Ok?
    requires var end := e.next + (if e.size < 8 then 8 else e.size); Num(s, end, 4) == Ok(SIG_END_MARKER)
    ensures ParsePrefix(s, p, acc).Ok?
    ensures SkipScan(s, p) == Ok(ParsePrefix(s, p, acc).value.1)
       <==> e.size >= 8 || ReadsAsRecord(s, e.next + e.size, e.next + 8)
    ensures 2 <= e.size < 8 ==> SkipScan(s, p) != Ok(ParsePrefix(s, p, acc).value.1)
  {
    hide Num, ExtraField;
    if e.size < 8 {
      var q := e.next + e.size;
      ExtraIsLong(s, q + 4);
      if Num(s, q, 4).Ok? && Num(s, q, 4).value != SIG_END_MARKER && ExtraField(s, q + 4).Ok? {
        var f := ExtraField(s, q + 4).value;
        SkipScanEnds(s, f.next + f.size);
        if f.next + f.size == e.next + 7 {
          AfterAlmost(s, f.next + f.size, e.next);
        }
      }
    }
  }

  /** One byte short of the end marker the scan ends elsewhere. */
  lemma AfterAlmost(s: bytes, p: nat, next: nat)
    requires p == next + 7 && Num(s, next + 8, 4) == Ok(SIG_END_MARKER)
    ensures SkipScan(s, p) != Ok(next + 12)
  {
    hide Num, ExtraField;
    if Num(s, p, 4).Ok? && Num(s, p, 4).value != SIG_END_MARKER && ExtraField(s, p + 4).Ok? {
      var f := ExtraField(s, p + 4).value;
      ExtraIsLong(s, p + 4);
      SkipScanEnds(s, f.next + f.size);
    }
  }

  // ---------- the methods ----------

  /** `read_exact` on a file. */
  method ReadExact(f: VolumeFile, buf: array<byte>) returns (ok: bool)
    modifies f`pos, buf
    ensures ok <==> buf.Length == 0 || old(f.pos) + buf.Length <= |f.data|
    ensures ok ==> f.pos == old(f.pos) + buf.Length
    ensures ok && buf.Length > 0 ==> buf[..] == f.data[old(f.pos)..f.pos]
  {
    var at := 0;
    while at < buf.Length
      invariant 0 <= at <= buf.Length && f.pos == old(f.pos) + at
      invariant at > 0 ==> f.pos <= |f.data| && buf[..at] == f.data[old(f.pos)..f.pos]
    {
      ghost var was, p := buf[..at], f.pos;
      var n := f.Read(buf, at, buf.Length);
      if n == 0 {
        return false;
      }
      assert buf[..at + n] == was + buf[at..at + n];
      SlicesJoin(f.data, old(f.pos), p, f.pos);
      at := at + n;
    }
    assert buf[..at] == buf[..];
    return true;
  }

  lemma SlicesJoin(s: bytes, a: nat, b: nat, c: nat)
    requires a <= b <= c <= |s|
    ensures s[a..b] + s[b..c] == s[a..c]
    ensures a == b ==> s[a..b] == []
  {
  }

  /** `read_u32_raw`, and the narrower fields. */
  method ReadNum(f: VolumeFile, k: nat) returns (res: Result<nat>)
    requires k > 0
    modifies f`pos
    ensures res == Num(f.data, old(f.pos), k)
    ensures res.Ok? ==> f.pos == old(f.pos) + k
  {
    hide LeValue;
    var buf := new byte[k];
    var ok := ReadExact(f, buf);
    res := if ok then Ok(LeValue(buf[..])) else Err(Io);
  }

  /** `read_extra_field_raw`. */
  method ReadExtra(f: VolumeFile) returns (res: Result<Extra>)
    modifies f`pos
    ensures res == ExtraField(f.data, old(f.pos))
    ensures res.Ok? ==> f.pos == res.value.next
  {
    hide Num, HasFlag;
    var buf := new byte[1];
    var ok := ReadExact(f, buf);
    if !ok {
      return Err(Io);
    }
    assert buf[0] == buf[..][0];
    if HasFlag(buf[0], 1) {
      var size :- ReadNum(f, 4);
      res := Ok(Extra(buf[0], size, f.pos));
    } else {
      var size :- ReadNum(f, 2);
      res := Ok(Extra(buf[0], size, f.pos));
    }
  }

  /** `read_split_info`. */
  method ReadSplitInfo(f: VolumeFile) returns (res: Result<Option<SplitInfo>>)
    modifies f`pos
    ensures res == SplitInfoOf(f.data)
  {
    hide Num, ExtraField;
    f.Seek(0);
    var sig := ReadNum(f, 4);
    if sig != Ok(SIG_EGG_HEADER) {
      return Ok(None);
    }
    f.Seek(14);
    while true
      invariant SplitScan(f.data, f.pos) == SplitInfoOf(f.data)
      decreases |f.data| - f.pos
    {
      var sig :- ReadNum(f, 4);
      if sig == SIG_END_MARKER {
        return Ok(None);
      }
      var e :- ReadExtra(f);
      if sig == SIG_SPLIT_INFO {
        var prev :- ReadNum(f, 4);
        var next :- ReadNum(f, 4);
        return Ok(Some(SplitInfo(prev, next)));
      }
      f.Seek(f.pos + e.size);
    }
  }

  /** `skip_continuation_header`. */
  method SkipContinuationHeader(f: VolumeFile) returns (res: Result<nat>)
    modifies f`pos
    ensures res == ContinuationStart(f.data)
    ensures res.Ok? ==> f.pos == res.value
  {
    hide Num, ExtraField;
    f.Seek(0);
    var sig :- ReadNum(f, 4);
    if sig != SIG_EGG_HEADER {
      return Err(NotEggFile);
    }
    f.Seek(f.pos + 10);
    while true
      invariant SkipScan(f.data, f.pos) == ContinuationStart(f.data)
      decreases |f.data| - f.pos
    {
      var sig :- ReadNum(f, 4);
      if sig == SIG_END_MARKER {
        break;
      }
      var e :- ReadExtra(f);
      f.Seek(f.pos + e.size);
    }
    return Ok(f.pos);
  }

  /** `quick_header_id`. */
  method ReadHeaderId(v: bytes) returns (id: Option<nat>)
    ensures id == QuickHeaderId(v)
  {
    hide LeValue;
    var f := new VolumeFile(v);
    var buf := new byte[10];
    var ok := ReadExact(f, buf);
    if !ok {
      return None;
    }
    assert buf[..] == v[0..10];
    assert buf[0..4] == v[0..4] && buf[6..10] == v[6..10];
    if LeValue(buf[0..4]) != SIG_EGG_HEADER {
      return None;
    }
    return Some(LeValue(buf[6..10]));
  }

  /** The directory scan of `find_volume_by_id`. */
  method LookUp(dir: seq<bytes>, id: nat) returns (res: Result<bytes>)
    ensures res == FindVolume(dir, id)
  {
    hide QuickHeaderId;
    var i := 0;
    while i < |dir|
      invariant 0 <= i <= |dir| && FindVolume(dir[i..], id) == FindVolume(dir, id)
    {
      assert dir[i..][1..] == dir[i + 1..];
      var found := ReadHeaderId(dir[i]);
      if found == Some(id) {
        return Ok(dir[i]);
      }
      i := i + 1;
    }
    return Err(CantOpenFile);
  }

  /** The segments built so far present these bytes. */
  ghost predicate Presents(segments: seq<Segment>, data: bytes) {
    segments != [] && AllWellFormed(segments) && Tiled(segments) && FlatOf(segments) == data
  }

  lemma PresentsMore(segments: seq<Segment>, data: bytes, s: Segment)
    requires Presents(segments, data) && s.WellFormed() && s.logicalStart == segments[|segments| - 1].End()
    ensures Presents(segments + [s], data + s.Data())
  {
    var more := segments + [s];
    assert more[..|more| - 1] == segments;
    assert forall i :: 0 <= i < |segments| ==> more[i] == segments[i];
    assert Tiled(more) by {
      forall i | 1 <= i < |more| ensures more[i].logicalStart == more[i - 1].End() {
        if i < |segments| {
          assert segments[i].logicalStart == segments[i - 1].End();
        }
      }
    }
  }

  /** One turn of the chain: find the volume, skip its header, read its next ID. */
  method OpenVolume(dir: seq<bytes>, id: nat) returns (res: Result<(VolumeFile, nat, nat)>)
    ensures var spec := LinkTo(dir, id);
      if spec.Err? then res == Err(spec.error)
      else
        && res.Ok? && fresh(res.value.0)
        && spec.value == Link(id, res.value.0.data, res.value.1, res.value.2) && spec.value.WellFormed()
  {
    hide SplitInfoOf, ContinuationStart, FindVolume, QuickHeaderId;
    var volume :- LookUp(dir, id);
    var volFile := new VolumeFile(volume);
    var dataStart :- SkipContinuationHeader(volFile);
    volFile.Seek(0);
    var volSplit :- ReadSplitInfo(volFile);
    if |volume| < dataStart {
      return Err(CorruptedFile);
    }
    return Ok((volFile, dataStart, NextOf(volSplit)));
  }

  /** `try_open`: the reader over the whole chain, or None for an archive that is not split. */
  method TryOpen(dir: seq<bytes>, firstVolume: bytes) returns (res: Result<Option<MultiVolumeReader>>)
    ensures var spec := Volumes(dir, firstVolume);
      match spec
      case Err(e) => res == Err(e)
      case Ok(None) => res == Ok(None)
      case Ok(Some(links)) =>
        && res.Ok? && res.value.Some?
        && var r := res.value.value;
           (&& fresh(r) && fresh(r.Files()) && r.Valid() && r.logicalPos == 0
            && |r.segments| == 1 + |links| <= MAX_VOLUMES
            && (forall l :: l in links ==> l.WellFormed()) && r.Flat() == firstVolume + Pieces(links))
  {
    hide FlatOf, SplitInfoOf, LinkTo, QuickHeaderId, Presents, Tiled, AllWellFormed, Pieces, Prepend;
    var file := new VolumeFile(firstVolume);
    var split :- ReadSplitInfo(file);
    var next := NextOf(split);
    if next == 0 {
      return Ok(None);
    }
    file.Seek(0);
    var segments := [Segment(file, 0, 0, |firstVolume|)];
    FirstPresents(file);
    var seen: set<nat> := {};
    var firstId := ReadHeaderId(firstVolume);
    if firstId.Some? {
      seen := {firstId.value};
    }
    ghost var spec := Chain(dir, next, seen, 1);
    ghost var links: seq<Link> := [];
    ghost var data := firstVolume;
    NoPieces(firstVolume);
    PrependNothing([], spec);
    while next != 0
      invariant 1 <= |segments| == 1 + |links| <= MAX_VOLUMES
      invariant Presents(segments, data) && segments[0] == Segment(file, 0, 0, |firstVolume|)
      invariant file.pos == 0 && fresh(file) && forall s :: s in segments ==> fresh(s.file)
      invariant (forall l :: l in links ==> l.WellFormed()) && data == firstVolume + Pieces(links)
      invariant spec == Prepend(links, Chain(dir, next, seen, |segments|))
      decreases MAX_VOLUMES - |segments|
    {
      PrependNothing(links, Chain(dir, next, seen, |segments|));
      if next in seen {
        return Err(CorruptedFile);
      }
      seen := seen + {next};
      if |segments| >= MAX_VOLUMES {
        return Err(CorruptedFile);
      }
      var volume :- OpenVolume(dir, next);
      var (volFile, dataStart, afterNext) := volume;
      ghost var link := Link(next, volFile.data, dataStart, afterNext);
      var logicalStart := segments[|segments| - 1].End();
      var s := Segment(volFile, dataStart, logicalStart, |volFile.data| - dataStart);
      PresentsMore(segments, data, s);
      PiecesMore(links, link);
      PrependMore(links, link, Chain(dir, link.next, seen, |segments| + 1));
      segments := segments + [s];
      links := links + [link];
      data := data + s.Data();
      next := afterNext;
    }
    assert spec == Ok(links) by { PrependNothing(links, Ok([])); }
    ReadyToRead(segments, data);
    var r := new MultiVolumeReader(segments);
    return Ok(Some(r));
  }

  lemma NoPieces(first: bytes)
    ensures first + Pieces([]) == first
  {
  }

  lemma FirstPresents(file: VolumeFile)
    ensures Presents([Segment(file, 0, 0, |file.data|)], file.data)
  {
    var s := Segment(file, 0, 0, |file.data|);
    assert [s][..0] == [];
    assert FlatOf([s]) == FlatOf([]) + s.Data();
  }

  lemma ReadyToRead(segments: seq<Segment>, data: bytes)
    requires Presents(segments, data)
    ensures segments != [] && AllWellFormed(segments) && Tiled(segments) && FlatOf(segments) == data
  {
  }

  function Prepend(links: seq<Link>, r: Result<seq<Link>>): Result<seq<Link>> {
    if r.Err? then r else Ok(links + r.value)
  }

  lemma PrependMore(links: seq<Link>, link: Link, r: Result<seq<Link>>)
    ensures Prepend(links + [link], r) == Prepend(links, if r.Err? then r else Ok([link] + r.value))
  {
    if r.Ok? {
      assert links + [link] + r.value == links + ([link] + r.value);
    }
  }

  lemma PrependNothing(links: seq<Link>, r: Result<seq<Link>>)
    ensures links == [] ==> Prepend(links, r) == r
    ensures r == Ok([]) ==> Prepend(links, r) == Ok(links)
    ensures r.Err? ==> Prepend(links, r) == r
  {
    assert links + [] == links;
    if r.Ok? {
      assert [] + r.value == r.value;
    }
  }

  lemma {:induction false} PiecesMore(links: seq<Link>, link: Link)
    requires (forall l :: l in links ==> l.WellFormed()) && link.WellFormed()
    ensures Pieces(links + [link]) == Pieces(links) + link.volume[link.start..]
  {
    if links == [] {
      assert [link][1..] == [];
    } else {
      var more := links + [link];
      assert more[0] == links[0] && more[1..] == links[1..] + [link];
      PiecesMore(links[1..], link);
    }
  }
}
