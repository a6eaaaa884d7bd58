/** The per-block drivers of src/decompress: bounded output, store, deflate, LZMA, decryption on short reads. */
module Drivers {
  import opened Bytes
  import opened Errors
  import opened Disk
  import opened VolumeReader
  import opened Decryptors
  import opened Inflation
  import Crc32

  // ---------- bounded output ----------

  lemma AppendedTwice(o: Output, w: Writer, a: bytes, b: bytes)
    requires w.ToFile? ==> w.path in o.files
    ensures w.ToFile? ==> w.path in Appended(o, w, a).files
    ensures Appended(Appended(o, w, a), w, b) == Appended(o, w, a + b)
  {
    match w {
      case ToStdout => assert o.stdout + a + b == o.stdout + (a + b);
      case ToFile(path) =>
        var x := o.files[path];
        assert x + a + b == x + (a + b);
        assert o.files[path := x + a][path := x + a + b] == o.files[path := x + (a + b)];
    }
  }

  lemma AppendedNothing(o: Output, w: Writer)
    requires w.ToFile? ==> w.path in o.files
    ensures Appended(o, w, []) == o
  {
    match w {
      case ToStdout => assert o.stdout + [] == o.stdout;
      case ToFile(path) => assert o.files[path] + [] == o.files[path] && o.files[path := o.files[path]] == o.files;
    }
  }

  /** Nothing but the writer's own destination has changed. */
  ghost predicate OnlyThere(before: Output, now: Output, w: Writer) {
    match w
    case ToStdout => now.files == before.files && before.stdout <= now.stdout
    case ToFile(path) => now.stdout == before.stdout && path in now.files && now.files - {path} == before.files - {path}
  }

  /** `LimitWriter`: passes bytes on and refuses to pass more than the declared size. */
  class LimitWriter {
    const disk: Disk
    const inner: Writer
    var remaining: nat

    ghost predicate Open()
      reads this, disk
    {
      inner.ToFile? ==> inner.path in disk.files
    }

    constructor (disk: Disk, inner: Writer, limit: nat)
      ensures this.disk == disk && this.inner == inner && remaining == limit
    {
      this.disk, this.inner, remaining := disk, inner, limit;
    }

    /** `write`: the inner writer may take a part; what it took is charged. */
    method Write(buf: bytes) returns (ok: bool, n: nat)
      requires Open()
      modifies this`remaining, disk
      ensures Open() && n <= |buf| && OnlyThere(old(disk.State()), disk.State(), inner)
      ensures ok ==> (n == 0 <==> buf == []) && remaining == old(remaining) - n && |buf| <= old(remaining)
      ensures ok ==> disk.State() == Appended(old(disk.State()), inner, buf[..n]) && disk.faulted == old(disk.faulted)
      ensures !ok && !disk.faulted ==> |buf| > old(remaining)
    {
      if |buf| > remaining {
        return false, 0;
      }
      n := 0;
      if buf != [] {
        n :| 0 < n <= |buf|;
      }
      ghost var o := disk.State();
      ok := disk.Append(inner, buf[..n]);
      if ok {
        remaining := remaining - n;
      }
    }

    /** `write_all`. */
    method WriteAll(buf: bytes) returns (ok: bool)
      requires Open()
      modifies this`remaining, disk
      ensures Open() && OnlyThere(old(disk.State()), disk.State(), inner)
      ensures ok ==> remaining == old(remaining) - |buf| && disk.faulted == old(disk.faulted)
      ensures ok ==> disk.State() == Appended(old(disk.State()), inner, buf)
      ensures !ok && !disk.faulted ==> |buf| > old(remaining)
    {
      hide Appended, OnlyThere;
      var at := 0;
      ghost var before := disk.State();
      AppendedNothing(before, inner);
      SamePlace(before, inner);
      while at < |buf|
        invariant 0 <= at <= |buf| && Open() && remaining == old(remaining) - at && disk.faulted == old(disk.faulted)
        invariant disk.State() == Appended(before, inner, buf[..at]) && OnlyThere(before, disk.State(), inner)
      {
        ghost var mid := disk.State();
        var n;
        ok, n := Write(buf[at..]);
        OnlyThereTwice(before, mid, disk.State(), inner);
        if !ok {
          return;
        }
        AppendedTwice(before, inner, buf[..at], buf[at..][..n]);
        assert buf[..at] + buf[at..][..n] == buf[..at + n];
        at := at + n;
      }
      assert buf[..at] == buf;
      return true;
    }
  }

  lemma SamePlace(o: Output, w: Writer)
    requires w.ToFile? ==> w.path in o.files
    ensures OnlyThere(o, o, w)
  {
  }

  lemma OnlyThereTwice(a: Output, b: Output, c: Output, w: Writer)
    requires OnlyThere(a, b, w) && OnlyThere(b, c, w)
    ensures OnlyThere(a, c, w)
  {
  }

  // ---------- what a driver has done ----------

  /** The decryptor shares nothing with the reader and the writer. */
  ghost predicate Separate(r: MultiVolumeReader, d: Option<Decryptor>, w: LimitWriter) {
    PartsOf(d) !! ({r, w, w.disk} + r.Files())
  }

  /** The first `done` bytes of a block at position p have been read and decrypted from state `start` on. */
  ghost predicate Consumed(flat: bytes, p: nat, done: nat, start: Option<State>, now: Option<State>, pos: nat) {
    && pos == p + done
    && |Window(flat, p, done)| == done
    && now == Then(start, Window(flat, p, done))
  }

  lemma ConsumedNothing(flat: bytes, p: nat, start: Option<State>)
    ensures Consumed(flat, p, 0, start, start, p) && Window(flat, p, 0) == []
    ensures Plain(start, Window(flat, p, 0)) == []
  {
    PlainNothing(start);
  }

  /** One more piece read, in whatever size. */
  lemma ConsumedMore(
    flat: bytes, p: nat, done: nat, n: nat, start: Option<State>, mid: Option<State>, now: Option<State>,
    piece: bytes)
    requires Consumed(flat, p, done, start, mid, p + done)
    requires |piece| == n && (n > 0 ==> p + done + n <= |flat| && piece == flat[p + done..p + done + n])
    requires now == Then(mid, piece)
    ensures Consumed(flat, p, done + n, start, now, p + done + n)
    ensures Plain(start, Window(flat, p, done + n)) == Plain(start, Window(flat, p, done)) + Plain(mid, piece)
  {
    hide Plain, Then;
    assert Window(flat, p, done + n) == Window(flat, p, done) + piece;
    PlainAppend(start, Window(flat, p, done), piece);
  }

  /** The next n bytes of a block, read into the front of a buffer and decrypted there. */
  method FillPlain(
    r: MultiVolumeReader, crypto: Option<Decryptor>, buf: array<byte>, n: nat,
    ghost p: nat, ghost done: nat, ghost start: Option<State>)
    returns (ok: bool)
    requires r.Valid() && Ready(crypto) && PartsOf(crypto) !! ({r} + r.Files()) && buf !in PartsOf(crypto)
    requires n <= buf.Length && Consumed(r.Flat(), p, done, start, StateOf(crypto), r.logicalPos)
    modifies r, r.Files(), PartsOf(crypto), buf
    ensures r.Valid() && Ready(crypto) && old(r.logicalPos) == p + done
    ensures ok <==> n == 0 || p + done + n <= |r.Flat()|
    ensures ok ==> Consumed(r.Flat(), p, done + n, start, StateOf(crypto), r.logicalPos)
    ensures ok ==>
      Plain(start, Window(r.Flat(), p, done + n)) == Plain(start, Window(r.Flat(), p, done)) + buf[..n]
  {
    hide Plain, Then, FlatOf, Decryptor.Valid, Decryptor.Now, Consumed;
    ghost var mid := StateOf(crypto);
    ConsumedIs(r.Flat(), p, done, start, mid, r.logicalPos);
    ok := r.ReadExact(buf, 0, n);
    if ok {
      ghost var piece := buf[..n];
      assert piece == buf[0..n];
      DecryptFront(crypto, buf, n);
      ConsumedMore(r.Flat(), p, done, n, start, mid, StateOf(crypto), piece);
    }
  }

  /** So far exactly `out` was written and hashed, and charged to the limit. */
  ghost predicate Emitted(w: LimitWriter, hasher: bv32, before: Output, out: bytes, limit: nat)
    requires w.inner.ToFile? ==> w.inner.path in before.files
    reads w, w.disk
  {
    && hasher == Crc32.Update(Crc32.INITIAL, out)
    && w.disk.State() == Appended(before, w.inner, out)
    && OnlyThere(before, w.disk.State(), w.inner)
    && w.remaining + |out| == limit
  }

  lemma EmittedNothing(w: LimitWriter)
    requires w.Open()
    ensures Emitted(w, Crc32.INITIAL, w.disk.State(), [], w.remaining)
  {
    AppendedNothing(w.disk.State(), w.inner);
  }

  /** `hasher.update` and `write_all`. */
  method Emit(w: LimitWriter, hasher: bv32, data: bytes, ghost before: Output, ghost out: bytes, ghost limit: nat)
    returns (ok: bool, next: bv32)
    requires w.Open() && (w.inner.ToFile? ==> w.inner.path in before.files)
    requires Emitted(w, hasher, before, out, limit)
    modifies w`remaining, w.disk
    ensures w.Open() && OnlyThere(before, w.disk.State(), w.inner)
    ensures ok ==> Emitted(w, next, before, out + data, limit) && w.disk.faulted == old(w.disk.faulted)
    ensures ok ==> old(w.remaining) == w.remaining + |data|
    ensures !ok && !w.disk.faulted ==> |out| + |data| > limit
  {
    hide Appended, OnlyThere, Crc32.Update;
    Crc32.UpdateAppend(Crc32.INITIAL, out, data);
    next := Crc32.Update(hasher, data);
    ghost var at := w.disk.State();
    ok := w.WriteAll(data);
    OnlyThereTwice(before, at, w.disk.State(), w.inner);
    if ok {
      AppendedTwice(before, w.inner, out, data);
    }
  }

  /** What a driver promises about its output once it is done. */
  lemma EmittedAll(w: LimitWriter, hasher: bv32, before: Output, out: bytes, limit: nat)
    requires w.inner.ToFile? ==> w.inner.path in before.files
    requires Emitted(w, hasher, before, out, limit)
    ensures |out| <= limit && OnlyThere(before, w.disk.State(), w.inner)
    ensures w.disk.State() == Appended(before, w.inner, out) && Crc32.Finalize(hasher) == Crc32.Checksum(out)
  {
    hide Appended, OnlyThere, Crc32.Update;
  }

  // ---------- store ----------

  /** What a loop was started with: the block's place and size, the decryptor's state, the output, the limit. */
  datatype Given = Given(p: nat, size: nat, start: Option<State>, before: Output, limit: nat)

  const STORE_BUF := 8192

  /** `extract_store`. */
  method ExtractStore(r: MultiVolumeReader, w: LimitWriter, size: nat, crypto: Option<Decryptor>)
    returns (res: Result<bv32>)
    requires r.Valid() && w.Open() && Ready(crypto) && Separate(r, crypto, w)
    modifies r, r.Files(), w`remaining, w.disk, PartsOf(crypto)
    ensures r.Valid() && w.Open() && Ready(crypto) && OnlyThere(old(w.disk.State()), w.disk.State(), w.inner)
    ensures var block := Window(r.Flat(), old(r.logicalPos), size); var plain := Plain(old(StateOf(crypto)), block);
      && (res.Ok? ==>
            && |block| == size <= old(w.remaining)
            && r.logicalPos == old(r.logicalPos) + size
            && StateOf(crypto) == Then(old(StateOf(crypto)), block)
            && w.disk.State() == Appended(old(w.disk.State()), w.inner, plain)
            && w.disk.faulted == old(w.disk.faulted)
            && res.value == Crc32.Checksum(plain))
      && (res.Err? ==> res == Err(Io) && (w.disk.faulted || |block| < size || size > old(w.remaining)))
  {
    hide Plain, Then, Appended, OnlyThere, FlatOf, Decryptor.Valid, Decryptor.Now, Consumed, Emitted, Window,
      Crc32.Finalize, Crc32.Checksum, Tiled, AllWellFormed, MultiVolumeReader.Shaped, Crc32.Update;
    ghost var g := Given(r.logicalPos, size, StateOf(crypto), w.disk.State(), w.remaining);
    var hasher := Crc32.INITIAL;
    var buf := new byte[STORE_BUF];
    var remaining := size;
    ghost var out: bytes := [];
    ConsumedNothing(r.Flat(), g.p, g.start);
    SamePlace(g.before, w.inner);
    EmittedNothing(w);
    while remaining > 0
      invariant r.Valid() && w.Open() && Ready(crypto) && fresh(buf) && 0 <= remaining <= size
      invariant buf.Length == STORE_BUF
      invariant StoredSoFar(r, crypto, remaining, g, out)
      invariant Emitted(w, hasher, g.before, out, g.limit) && w.disk.faulted == old(w.disk.faulted)
    {
      var ok, n;
      ok, hasher, n, out := StoreTurn(r, w, crypto, buf, remaining, hasher, g, out);
      if !ok {
        return Err(Io);
      }
      remaining := remaining - n;
    }
    ConsumedIs(r.Flat(), g.p, size - remaining, g.start, StateOf(crypto), r.logicalPos);
    EmittedAll(w, hasher, g.before, out, g.limit);
    return Ok(Crc32.Finalize(hasher));
  }

  /** All but `remaining` bytes of the block are read, and `out` is their decryption. */
  ghost predicate StoredSoFar(r: MultiVolumeReader, crypto: Option<Decryptor>, remaining: nat, g: Given, out: bytes)
    requires r.Valid() && Ready(crypto)
    reads r, r.Files(), PartsOf(crypto)
  {
    && remaining <= g.size
    && Consumed(r.Flat(), g.p, g.size - remaining, g.start, StateOf(crypto), r.logicalPos)
    && out == Plain(g.start, Window(r.Flat(), g.p, g.size - remaining)) && |out| == g.size - remaining
  }

  /** One turn of the storing loop: the next bytes are read, decrypted, hashed and written. */
  method StoreTurn(
    r: MultiVolumeReader, w: LimitWriter, crypto: Option<Decryptor>, buf: array<byte>, remaining: nat, hasher: bv32,
    ghost g: Given, ghost out: bytes)
    returns (ok: bool, next: bv32, n: nat, ghost put: bytes)
    requires r.Valid() && w.Open() && Ready(crypto) && Separate(r, crypto, w) && buf !in PartsOf(crypto)
    requires 0 < remaining && buf.Length == STORE_BUF && StoredSoFar(r, crypto, remaining, g, out)
    requires (w.inner.ToFile? ==> w.inner.path in g.before.files) && Emitted(w, hasher, g.before, out, g.limit)
    modifies r, r.Files(), w`remaining, w.disk, PartsOf(crypto), buf
    ensures r.Valid() && w.Open() && Ready(crypto) && OnlyThere(g.before, w.disk.State(), w.inner)
    ensures ok ==>
      && 0 < n <= remaining && StoredSoFar(r, crypto, remaining - n, g, put)
      && Emitted(w, next, g.before, put, g.limit) && w.disk.faulted == old(w.disk.faulted)
    ensures !ok ==> w.disk.faulted || |Window(r.Flat(), g.p, g.size)| < g.size || g.size > g.limit
  {
    hide Plain, Then, Appended, OnlyThere, FlatOf, Decryptor.Valid, Decryptor.Now, Consumed, Emitted, Window,
      Crc32.Finalize, Crc32.Checksum, Tiled, AllWellFormed, MultiVolumeReader.Shaped, Crc32.Update;
    ghost var done := g.size - remaining;
    EmittedAll(w, hasher, g.before, out, g.limit);
    next, put := hasher, out;
    n := if remaining < STORE_BUF then remaining else STORE_BUF;
    ok := FillPlain(r, crypto, buf, n, g.p, done, g.start);
    if !ok {
      ShortBlock(r.Flat(), g.p, done, n, g.size);
      return;
    }
    var plain := buf[..n];
    ok, next := Emit(w, hasher, plain, g.before, out, g.limit);
    put := out + plain;
  }

  lemma ConsumedIs(flat: bytes, p: nat, done: nat, start: Option<State>, now: Option<State>, pos: nat)
    requires Consumed(flat, p, done, start, now, pos)
    ensures pos == p + done && |Window(flat, p, done)| == done && now == Then(start, Window(flat, p, done))
  {
  }

  lemma ShortBlock(flat: bytes, p: nat, done: nat, n: nat, size: nat)
    requires n > 0 && done + n <= size && p + done + n > |flat|
    ensures |Window(flat, p, size)| < done + n
  {
  }

  // ---------- deflate ----------

  /** What is there of the block, decrypted. */
  ghost function Whole(flat: bytes, g: Given): (r: bytes)
    ensures |r| <= g.size
  {
    Plain(g.start, Window(flat, g.p, g.size))
  }

  /** The loop's variables: bytes still to read, bytes in the window, the inflater (its past calls), the hasher. */
  datatype Loop = Loop(remaining: nat, inAvail: nat, past: seq<bytes>, hasher: bv32)

  /** Between two turns: what was read, consumed and written so far, and that the rest of the run is still ahead. */
  ghost predicate Turning(
    r: MultiVolumeReader, w: LimitWriter, crypto: Option<Decryptor>, inf: Inflater, inBuf: array<byte>, l: Loop,
    g: Given)
    requires r.Valid() && Ready(crypto)
    reads r, r.Files(), PartsOf(crypto), inBuf, w, w.disk
  {
    && (w.inner.ToFile? ==> w.inner.path in g.before.files)
    && l.remaining + l.inAvail <= g.size
    && var k, out := g.size - l.remaining - l.inAvail, MadeBy(inf, l.past);
       (&& Windowed(r, crypto, inBuf, l.remaining, l.inAvail, g, k)
        && Ahead(inf, l.past, Whole(r.Flat(), g), g.size, k, g.size - l.remaining, g.limit, out)
        && Emitted(w, l.hasher, g.before, out, g.limit))
  }

  /** How much a turn can still consume and write. */
  ghost function Left(inf: Inflater, l: Loop, g: Given): int {
    l.remaining + l.inAvail + g.limit - |MadeBy(inf, l.past)|
  }

  /** `extract_deflate`: the loop with its sliding window, its output hashed and written. */
  method ExtractDeflate(r: MultiVolumeReader, w: LimitWriter, size: nat, crypto: Option<Decryptor>, inf: Inflater)
    returns (res: Result<bv32>)
    requires r.Valid() && w.Open() && Ready(crypto) && Separate(r, crypto, w)
    modifies r, r.Files(), w`remaining, w.disk, PartsOf(crypto)
    ensures r.Valid() && w.Open() && Ready(crypto) && OnlyThere(old(w.disk.State()), w.disk.State(), w.inner)
    ensures var block := Window(r.Flat(), old(r.logicalPos), size); var plain := Plain(old(StateOf(crypto)), block);
      && Delivered(
           InflateOutcome(inf, plain, size, old(w.remaining)), res, old(w.disk.State()), w.disk.State(), w.inner,
           old(w.disk.faulted), w.disk.faulted)
      && (res.Ok? ==>
            StateOf(crypto) == Then(old(StateOf(crypto)), block[..Inflate(inf, plain, size, old(w.remaining)).taken]))
  {
    hide Plain, Then, Appended, OnlyThere, FlatOf, Decryptor.Valid, Decryptor.Now, Window, Turning, Left, Finished,
      Inflate, Crc32.Finalize, Crc32.Checksum, Tiled, AllWellFormed, MultiVolumeReader.Shaped;
    ghost var g := Given(r.logicalPos, size, StateOf(crypto), w.disk.State(), w.remaining);
    var inBuf := new byte[IN_BUF_SIZE];
    var l := Loop(size, 0, [], Crc32.INITIAL);
    var stop := false;
    TurningStarts(r, w, crypto, inf, inBuf, g);
    while !stop
      invariant r.Valid() && w.Open() && Ready(crypto) && fresh(inBuf) && w.disk.faulted == old(w.disk.faulted)
      invariant if stop then Finished(r, w, crypto, inf, l, g) else Turning(r, w, crypto, inf, inBuf, l, g)
      invariant OnlyThere(g.before, w.disk.State(), w.inner)
      decreases !stop, Left(inf, l, g)
    {
      var failed;
      failed, l, stop := InflateTurn(r, w, crypto, inf, inBuf, l, g);
      if failed.Some? {
        return Err(failed.value);
      }
    }
    FinishedIs(r, w, crypto, inf, l, g);
    return Ok(Crc32.Finalize(l.hasher));
  }

  /** The loop has ended well: all that the inflater produced is written, and the decryptor stands where it read to. */
  ghost predicate Finished(
    r: MultiVolumeReader, w: LimitWriter, crypto: Option<Decryptor>, inf: Inflater, l: Loop, g: Given)
    requires r.Valid() && Ready(crypto)
    reads r, r.Files(), PartsOf(crypto), w, w.disk
  {
    && (w.inner.ToFile? ==> w.inner.path in g.before.files)
    && l.remaining <= g.size && g.size - l.remaining <= |Window(r.Flat(), g.p, g.size)|
    && var out := MadeBy(inf, l.past);
       (&& Inflate(inf, Whole(r.Flat(), g), g.size, g.limit) == Run(out, g.size - l.remaining, None)
        && StateOf(crypto) == Then(g.start, Window(r.Flat(), g.p, g.size)[..g.size - l.remaining])
        && Emitted(w, l.hasher, g.before, out, g.limit))
  }

  lemma FinishedIs(
    r: MultiVolumeReader, w: LimitWriter, crypto: Option<Decryptor>, inf: Inflater, l: Loop, g: Given)
    requires r.Valid() && Ready(crypto) && Finished(r, w, crypto, inf, l, g)
    ensures var block := Window(r.Flat(), g.p, g.size); var run := Inflate(inf, Plain(g.start, block), g.size, g.limit);
      && InflateOutcome(inf, Plain(g.start, block), g.size, g.limit) == Ok(run.out)
      && run.taken <= |block| && StateOf(crypto) == Then(g.start, block[..run.taken])
      && (w.inner.ToFile? ==> w.inner.path in g.before.files)
      && w.disk.State() == Appended(g.before, w.inner, run.out)
      && Crc32.Finalize(l.hasher) == Crc32.Checksum(run.out)
  {
    hide Plain, Then, Appended, OnlyThere, FlatOf, Decryptor.Valid, Decryptor.Now, Window, Inflate, MadeBy, Emitted,
      Crc32.Checksum, Crc32.Finalize;
    EmittedAll(w, l.hasher, g.before, MadeBy(inf, l.past), g.limit);
  }

  lemma TurningStarts(
    r: MultiVolumeReader, w: LimitWriter, crypto: Option<Decryptor>, inf: Inflater, inBuf: array<byte>, g: Given)
    requires r.Valid() && w.Open() && Ready(crypto) && inBuf.Length == IN_BUF_SIZE
    requires g == Given(r.logicalPos, g.size, StateOf(crypto), w.disk.State(), w.remaining)
    ensures Turning(r, w, crypto, inf, inBuf, Loop(g.size, 0, [], Crc32.INITIAL), g)
    ensures OnlyThere(g.before, w.disk.State(), w.inner)
  {
    hide Plain, Then, Appended, OnlyThere, FlatOf, Decryptor.Valid, Decryptor.Now, Window, Windowed, Ahead, Emitted;
    SamePlace(g.before, w.inner);
    EmittedNothing(w);
    WindowStarts(r, crypto, inBuf, g);
    AtTheStart(inf, Whole(r.Flat(), g), g.size, g.limit);
  }

  /** One turn of the loop: refill, one call of the inflater, its output written. */
  method InflateTurn(
    r: MultiVolumeReader, w: LimitWriter, crypto: Option<Decryptor>, inf: Inflater, inBuf: array<byte>, l: Loop,
    ghost g: Given)
    returns (failed: Option<Error>, next: Loop, stop: bool)
    requires r.Valid() && w.Open() && Ready(crypto) && Separate(r, crypto, w) && inBuf !in PartsOf(crypto)
    requires Turning(r, w, crypto, inf, inBuf, l, g)
    modifies r, r.Files(), w`remaining, w.disk, PartsOf(crypto), inBuf
    ensures r.Valid() && w.Open() && Ready(crypto) && OnlyThere(g.before, w.disk.State(), w.inner)
    ensures failed.None? ==>
      && w.disk.faulted == old(w.disk.faulted)
      && if stop then Finished(r, w, crypto, inf, next, g)
         else Turning(r, w, crypto, inf, inBuf, next, g) && 0 <= Left(inf, next, g) < Left(inf, l, g)
    ensures failed.Some? && !w.disk.faulted ==>
      InflateOutcome(inf, Whole(r.Flat(), g), g.size, g.limit) == Err(failed.value)
  {
    hide Plain, Then, Appended, OnlyThere, FlatOf, Decryptor.Valid, Decryptor.Now, Consumed, Emitted, Window,
      Windowed, Ahead, Inflate, Whole, MadeBy, Crc32.Finalize, Crc32.Checksum, Tiled, AllWellFormed,
      MultiVolumeReader.Shaped, Crc32.Update;
    ghost var k, out := g.size - l.remaining - l.inAvail, MadeBy(inf, l.past);
    OneCall(inf, l.past, Whole(r.Flat(), g), g.size, k, g.size - l.remaining, g.limit, out);
    EmittedAll(w, l.hasher, g.before, out, g.limit);
    failed, next, stop := Some(Io), l, false;
    var ok, remaining, inAvail, hasher;
    ok, remaining, inAvail := Refill(r, w, crypto, inBuf, l.remaining, l.inAvail, g, k, l.hasher, out);
    if !ok {
      return;
    }
    WindowIs(r, crypto, inBuf, remaining, inAvail, g, k);
    var window := inBuf[..inAvail];
    var t := inf(l.past, window);
    if t.Failed? {
      failed := Some(InflateFailed);
      return;
    }
    MadeMore(inf, l.past, window);
    ok, inAvail, hasher := AfterStep(
      r, w, crypto, inBuf, remaining, inAvail, t.consumed, t.produced, l.hasher, g, k, out);
    if !ok {
      return;
    }
    EmittedAll(w, hasher, g.before, out + t.produced, g.limit);
    next := Loop(remaining, inAvail, l.past + [window], hasher);
    failed, stop := None, t.end || (inAvail == 0 && remaining == 0 && t.produced == []);
    if stop {
      TakenIs(r, crypto, inBuf, remaining, inAvail, g, k + t.consumed);
    }
  }

  lemma MadeMore(inf: Inflater, past: seq<bytes>, window: bytes)
    requires inf(past, window).Stepped?
    ensures MadeBy(inf, past + [window]) == MadeBy(inf, past) + inf(past, window).produced
  {
    assert (past + [window])[..|past|] == past;
  }

  /** The window holds the decrypted bytes that were read and not consumed yet, from byte k of the block on. */
  ghost predicate Windowed(
    r: MultiVolumeReader, crypto: Option<Decryptor>, inBuf: array<byte>, remaining: nat, inAvail: nat, g: Given,
    k: nat)
    requires r.Valid() && Ready(crypto)
    reads r, r.Files(), PartsOf(crypto), inBuf
  {
    && remaining <= g.size && inAvail <= inBuf.Length == IN_BUF_SIZE
    && Consumed(r.Flat(), g.p, g.size - remaining, g.start, StateOf(crypto), r.logicalPos)
    && k + inAvail == g.size - remaining <= |Whole(r.Flat(), g)|
    && inBuf[..inAvail] == Whole(r.Flat(), g)[k..g.size - remaining]
  }

  lemma WindowStarts(r: MultiVolumeReader, crypto: Option<Decryptor>, inBuf: array<byte>, g: Given)
    requires r.Valid() && Ready(crypto) && inBuf.Length == IN_BUF_SIZE
    requires g.p == r.logicalPos && g.start == StateOf(crypto)
    ensures Windowed(r, crypto, inBuf, g.size, 0, g, 0)
  {
    hide Plain, Then;
    ConsumedNothing(r.Flat(), g.p, g.start);
  }

  lemma WindowIs(
    r: MultiVolumeReader, crypto: Option<Decryptor>, inBuf: array<byte>, remaining: nat, inAvail: nat, g: Given,
    k: nat)
    requires r.Valid() && Ready(crypto) && Windowed(r, crypto, inBuf, remaining, inAvail, g, k)
    ensures remaining <= g.size && inAvail <= inBuf.Length
    ensures k + inAvail == g.size - remaining <= |Whole(r.Flat(), g)|
    ensures inBuf[..inAvail] == Whole(r.Flat(), g)[k..g.size - remaining]
  {
    hide Plain, Then, Window, Consumed, FlatOf, Decryptor.Valid, Decryptor.Now;
  }

  /** The decryptor has advanced by exactly what was read. */
  lemma TakenIs(
    r: MultiVolumeReader, crypto: Option<Decryptor>, inBuf: array<byte>, remaining: nat, inAvail: nat, g: Given,
    k: nat)
    requires r.Valid() && Ready(crypto) && Windowed(r, crypto, inBuf, remaining, inAvail, g, k)
    ensures remaining <= g.size && g.size - remaining <= |Window(r.Flat(), g.p, g.size)|
    ensures StateOf(crypto) == Then(g.start, Window(r.Flat(), g.p, g.size)[..g.size - remaining])
  {
    hide Plain, Then, FlatOf, Decryptor.Valid, Decryptor.Now;
    ConsumedIs(r.Flat(), g.p, g.size - remaining, g.start, StateOf(crypto), r.logicalPos);
    assert Window(r.Flat(), g.p, g.size)[..g.size - remaining] == Window(r.Flat(), g.p, g.size - remaining);
  }

  /** The window is refilled once it is used up. */
  method Refill(
    r: MultiVolumeReader, w: LimitWriter, crypto: Option<Decryptor>, inBuf: array<byte>, remaining: nat, inAvail: nat,
    ghost g: Given, ghost k: nat, ghost hasher: bv32, ghost out: bytes)
    returns (ok: bool, left: nat, avail: nat)
    requires r.Valid() && w.Open() && Ready(crypto) && Separate(r, crypto, w) && inBuf !in PartsOf(crypto)
    requires Windowed(r, crypto, inBuf, remaining, inAvail, g, k)
    requires (w.inner.ToFile? ==> w.inner.path in g.before.files) && Emitted(w, hasher, g.before, out, g.limit)
    modifies r, r.Files(), PartsOf(crypto), inBuf
    ensures r.Valid() && w.Open() && Ready(crypto) && Emitted(w, hasher, g.before, out, g.limit)
    ensures k <= g.size - remaining <= g.size
    ensures var end := g.size - remaining + Wanted(g.size, k, g.size - remaining);
      && (ok <==> end <= |Whole(r.Flat(), g)|)
      && (ok ==> left == g.size - end && Windowed(r, crypto, inBuf, left, avail, g, k))
  {
    hide Plain, Then, FlatOf, Decryptor.Valid, Decryptor.Now, Consumed, Window, Emitted;
    ok, left, avail := true, remaining, inAvail;
    ConsumedIs(r.Flat(), g.p, g.size - remaining, g.start, StateOf(crypto), r.logicalPos);
    if inAvail == 0 && remaining > 0 {
      avail := if remaining < IN_BUF_SIZE then remaining else IN_BUF_SIZE;
      ok := FillPlain(r, crypto, inBuf, avail, g.p, g.size - remaining, g.start);
      EndOfWhole(r.Flat(), g, g.size - remaining, avail);
      if ok {
        left := remaining - avail;
        PiecesOfWhole(r.Flat(), g, g.size - remaining, inBuf[..avail]);
      }
    }
  }

  lemma EndOfWhole(flat: bytes, g: Given, done: nat, n: nat)
    requires done + n <= g.size && n > 0 && |Window(flat, g.p, done)| == done
    ensures done + n <= |Whole(flat, g)| <==> g.p + done + n <= |flat|
  {
    hide Plain;
  }

  lemma PiecesOfWhole(flat: bytes, g: Given, done: nat, piece: bytes)
    requires done + |piece| <= g.size && |Window(flat, g.p, done + |piece|)| == done + |piece|
    requires Plain(g.start, Window(flat, g.p, done + |piece|)) == Plain(g.start, Window(flat, g.p, done)) + piece
    ensures done + |piece| <= |Whole(flat, g)| && Whole(flat, g)[done..done + |piece|] == piece
  {
    hide Plain, Window;
    PrefixOfBlock(flat, g.p, done + |piece|, g.size, g.start);
    var front := Plain(g.start, Window(flat, g.p, done));
    assert Whole(flat, g)[..done + |piece|] == front + piece;
    assert Whole(flat, g)[done..done + |piece|] == (front + piece)[done..];
  }

  /** After a call of the inflater: the rest of the window moves to the front, the output is hashed and written. */
  method AfterStep(
    r: MultiVolumeReader, w: LimitWriter, crypto: Option<Decryptor>, inBuf: array<byte>, ghost remaining: nat,
    inAvail: nat, consumed: nat, produced: bytes, hasher: bv32,
    ghost g: Given, ghost k: nat, ghost out: bytes)
    returns (ok: bool, avail: nat, next: bv32)
    requires r.Valid() && w.Open() && Ready(crypto) && Separate(r, crypto, w) && inBuf !in PartsOf(crypto)
    requires Windowed(r, crypto, inBuf, remaining, inAvail, g, k) && consumed <= inAvail
    requires (w.inner.ToFile? ==> w.inner.path in g.before.files) && Emitted(w, hasher, g.before, out, g.limit)
    modifies inBuf, w`remaining, w.disk
    ensures r.Valid() && w.Open() && Ready(crypto) && OnlyThere(g.before, w.disk.State(), w.inner)
    ensures avail == inAvail - consumed
    ensures Windowed(r, crypto, inBuf, remaining, avail, g, k + consumed)
    ensures ok ==> Emitted(w, next, g.before, out + produced, g.limit) && w.disk.faulted == old(w.disk.faulted)
    ensures !ok && !w.disk.faulted ==> |out| + |produced| > g.limit
  {
    hide FlatOf, Decryptor.Valid, Decryptor.Now, Windowed, Appended, Emitted, Tiled, AllWellFormed,
      MultiVolumeReader.Shaped, OnlyThere;
    avail := Slide(r, crypto, inBuf, remaining, inAvail, consumed, g, k);
    ok, next := true, hasher;
    if produced == [] {
      assert out + produced == out;
      EmittedAll(w, hasher, g.before, out, g.limit);
    } else {
      ok, next := Emit(w, hasher, produced, g.before, out, g.limit);
    }
  }

  /** What the inflater has not consumed moves to the front of the buffer. */
  method Slide(
    r: MultiVolumeReader, crypto: Option<Decryptor>, inBuf: array<byte>, ghost remaining: nat, inAvail: nat,
    consumed: nat, ghost g: Given, ghost k: nat)
    returns (avail: nat)
    requires r.Valid() && Ready(crypto) && inBuf !in PartsOf(crypto)
    requires Windowed(r, crypto, inBuf, remaining, inAvail, g, k) && consumed <= inAvail
    modifies inBuf
    ensures r.Valid() && Ready(crypto)
    ensures avail == inAvail - consumed
    ensures Windowed(r, crypto, inBuf, remaining, avail, g, k + consumed)
  {
    hide Plain, Then, FlatOf, Decryptor.Valid, Decryptor.Now, Consumed, Window, Tiled, AllWellFormed,
      MultiVolumeReader.Shaped;
    ghost var window := inBuf[..inAvail];
    if consumed < inAvail {
      CopyWithin(inBuf, consumed, inAvail);
    }
    avail := inAvail - consumed;
    assert inBuf[..avail] == window[consumed..] == Whole(r.Flat(), g)[k + consumed..g.size - remaining];
  }

  lemma PrefixOfBlock(flat: bytes, p: nat, done: nat, size: nat, start: Option<State>)
    requires done <= size && |Window(flat, p, done)| == done
    ensures var block := Plain(start, Window(flat, p, size));
      done <= |block| && block[..done] == Plain(start, Window(flat, p, done))
  {
    hide Plain, Then;
    var whole, front := Window(flat, p, size), Window(flat, p, done);
    assert whole == front + whole[done..];
    PlainAppend(start, front, whole[done..]);
  }

  /** `in_buf.copy_within(from..to, 0)`. */
  method CopyWithin(buf: array<byte>, from: nat, to: nat)
    requires from <= to <= buf.Length
    modifies buf
    ensures buf[..to - from] == old(buf[from..to])
  {
    ghost var was := buf[..];
    for i := 0 to to - from
      invariant forall j :: 0 <= j < i ==> buf[j] == was[from + j]
      invariant forall j :: i <= j < buf.Length ==> buf[j] == was[j]
    {
      buf[i] := buf[from + i];
    }
  }

  // ---------- LZMA ----------

  /** The stream handed to the decoder: five property bytes, an unknown size, the data. */
  function LzmaStream(plain: bytes): bytes
    requires |plain| >= 9
  {
    plain[4..9] + [0xFF, 0xFF, 0xFF, 0xFF, 0xFF, 0xFF, 0xFF, 0xFF] + plain[9..]
  }

  /** `take(n).read_to_end`, a length check and `decrypt`: as `FillPlain`, into a buffer that grows with the data. */
  method ReadPlainUpTo(
    r: MultiVolumeReader, crypto: Option<Decryptor>, n: nat, ghost p: nat, ghost done: nat, ghost start: Option<State>)
    returns (ok: bool, plain: bytes)
    requires r.Valid() && Ready(crypto) && PartsOf(crypto) !! ({r} + r.Files())
    requires Consumed(r.Flat(), p, done, start, StateOf(crypto), r.logicalPos)
    modifies r, r.Files(), PartsOf(crypto)
    ensures r.Valid() && Ready(crypto) && old(r.logicalPos) == p + done
    ensures ok <==> n == 0 || p + done + n <= |r.Flat()|
    ensures ok ==> Consumed(r.Flat(), p, done + n, start, StateOf(crypto), r.logicalPos)
    ensures ok ==>
      Plain(start, Window(r.Flat(), p, done + n)) == Plain(start, Window(r.Flat(), p, done)) + plain && |plain| == n
  {
    hide Plain, Then, FlatOf, Decryptor.Valid, Decryptor.Now, Consumed;
    ghost var mid := StateOf(crypto);
    ConsumedIs(r.Flat(), p, done, start, mid, r.logicalPos);
    var data := r.ReadUpTo(n);
    ok, plain := |data| == n, [];
    if ok {
      var buf := new byte[n](i requires 0 <= i < n => data[i]);
      assert buf[..n] == data;
      DecryptFront(crypto, buf, n);
      ConsumedMore(r.Flat(), p, done, n, start, mid, StateOf(crypto), data);
      plain := buf[..n];
    }
  }

  /** Whatever is there of a block, decrypted: what a foreign decoder that reads to the end gets to see. */
  method ReadAvailable(r: MultiVolumeReader, crypto: Option<Decryptor>, size: nat) returns (plain: bytes)
    requires r.Valid() && Ready(crypto) && PartsOf(crypto) !! ({r} + r.Files())
    modifies r, r.Files(), PartsOf(crypto)
    ensures r.Valid() && Ready(crypto)
    ensures var block := Window(r.Flat(), old(r.logicalPos), size);
      plain == Plain(old(StateOf(crypto)), block) && StateOf(crypto) == Then(old(StateOf(crypto)), block)
  {
    hide Plain, Then, FlatOf, Decryptor.Valid, Decryptor.Now, Window;
    var data := r.ReadUpTo(size);
    var buf := new byte[|data|](i requires 0 <= i < |data| => data[i]);
    assert buf[..|data|] == data;
    DecryptFront(crypto, buf, |data|);
    plain := buf[..|data|];
  }

  /** The plain bytes of an LZMA block, or why there are none. */
  function LzmaPlain(size: nat, plain: bytes): (r: Result<bytes>)
    ensures r.Ok? ==> |r.value| >= 9
  {
    if size < 9 then Err(LzmaFailed)
    else if |plain| < 9 then Err(Io)
    else if |plain| < size then Err(LzmaFailed)
    else Ok(plain)
  }

  /** A decoder at work on a bounded writer: it may be refused a write, or give up itself. */
  function DecoderOutcome(d: Decoding, limit: nat, refused: Error, broken: Error): Result<bytes> {
    if |Flatten(d.writes)| > limit then Err(refused)
    else if !d.ok then Err(broken)
    else Ok(Flatten(d.writes))
  }

  /** The decoder's buffer limit: a little more than the declared size. */
  function MemLimit(maxOutput: nat): nat {
    var m := maxOutput + 0x1_0000;
    if m < TWO_64 then m else TWO_64 - 1
  }

  /** What an LZMA block of `size` bytes decodes to, of which `plain` are there, decrypted. */
  function LzmaOutcome(lzma: LzmaDecoder, size: nat, maxOutput: nat, limit: nat, plain: bytes): Result<bytes> {
    var whole :- LzmaPlain(size, plain);
    DecoderOutcome(lzma(LzmaStream(whole), MemLimit(maxOutput)), limit, LzmaFailed, LzmaFailed)
  }

  /** A driver's result against its outcome on values: bytes written and their checksum, or, faults apart, the error. */
  ghost predicate Delivered(
    spec: Result<bytes>, res: Result<bv32>, before: Output, now: Output, w: Writer, wasFaulted: bool, isFaulted: bool)
    requires w.ToFile? ==> w.path in before.files
  {
    && (res.Ok? ==>
          && spec.Ok? && now == Appended(before, w, spec.value) && res.value == Crc32.Checksum(spec.value)
          && isFaulted == wasFaulted)
    && (res.Err? && !isFaulted ==> spec == Err(res.error))
  }

  /** The reading part of `extract_lzma`: header and data are decrypted in two calls and yet as one stream. */
  method ReadLzma(r: MultiVolumeReader, size: nat, crypto: Option<Decryptor>) returns (res: Result<bytes>)
    requires r.Valid() && Ready(crypto) && PartsOf(crypto) !! ({r} + r.Files())
    modifies r, r.Files(), PartsOf(crypto)
    ensures r.Valid() && Ready(crypto)
    ensures var block := Window(r.Flat(), old(r.logicalPos), size);
      && res == LzmaPlain(size, Plain(old(StateOf(crypto)), block))
      && (res.Ok? ==> |block| == size && StateOf(crypto) == Then(old(StateOf(crypto)), block))
  {
    hide Plain, Then, FlatOf, Decryptor.Valid, Decryptor.Now, Consumed, Window, Tiled, AllWellFormed,
      MultiVolumeReader.Shaped;
    ghost var start, p := StateOf(crypto), r.logicalPos;
    if size < 9 {
      return Err(LzmaFailed);
    }
    ConsumedNothing(r.Flat(), p, start);
    var header := new byte[9];
    var ok := FillPlain(r, crypto, header, 9, p, 0, start);
    if !ok {
      ShortBlock(r.Flat(), p, 0, 9, size);
      return Err(Io);
    }
    assert [] + header[..9] == header[..9];
    EnoughFor(r.Flat(), p, 9, size);
    var data;
    ok, data := ReadPlainUpTo(r, crypto, size - 9, p, 9, start);
    if !ok {
      ShortBlock(r.Flat(), p, 9, size - 9, size);
      return Err(LzmaFailed);
    }
    ConsumedIs(r.Flat(), p, size, start, StateOf(crypto), r.logicalPos);
    return Ok(header[..9] + data);
  }

  lemma EnoughFor(flat: bytes, p: nat, k: nat, size: nat)
    requires p + k <= |flat| && k <= size
    ensures |Window(flat, p, size)| >= k
  {
  }

  /** `extract_lzma`. */
  method ExtractLzma(
    r: MultiVolumeReader, w: LimitWriter, size: nat, maxOutput: nat, crypto: Option<Decryptor>, lzma: LzmaDecoder)
    returns (res: Result<bv32>)
    requires r.Valid() && w.Open() && Ready(crypto) && Separate(r, crypto, w)
    modifies r, r.Files(), w`remaining, w.disk, PartsOf(crypto)
    ensures r.Valid() && w.Open() && Ready(crypto) && OnlyThere(old(w.disk.State()), w.disk.State(), w.inner)
    ensures var block := Window(r.Flat(), old(r.logicalPos), size);
      var spec := LzmaOutcome(lzma, size, maxOutput, old(w.remaining), Plain(old(StateOf(crypto)), block));
      && Delivered(spec, res, old(w.disk.State()), w.disk.State(), w.inner, old(w.disk.faulted), w.disk.faulted)
      && (res.Ok? ==> |block| == size && StateOf(crypto) == Then(old(StateOf(crypto)), block))
  {
    hide Plain, Then, Appended, OnlyThere, FlatOf, Decryptor.Valid, Decryptor.Now, Window, Tiled, AllWellFormed,
      MultiVolumeReader.Shaped, DecoderOutcome, LzmaPlain, LzmaStream, MemLimit, Crc32.Checksum;
    SamePlace(w.disk.State(), w.inner);
    var read := ReadLzma(r, size, crypto);
    if read.Err? {
      return Err(read.error);
    }
    var full := read.value[4..9];
    full := full + [0xFF, 0xFF, 0xFF, 0xFF, 0xFF, 0xFF, 0xFF, 0xFF];
    full := full + read.value[9..];
    StreamIs(read.value);
    res := RunDecoder(w, lzma(full, MemLimit(maxOutput)), LzmaFailed, LzmaFailed);
  }

  lemma StreamIs(plain: bytes)
    requires |plain| >= 9
    ensures plain[4..9] + [0xFF, 0xFF, 0xFF, 0xFF, 0xFF, 0xFF, 0xFF, 0xFF] + plain[9..] == LzmaStream(plain)
  {
  }

  /** `HashingWriter`: hashes exactly the bytes each write of the inner writer took. */
  class HashingWriter {
    const inner: LimitWriter
    var hasher: bv32

    constructor (inner: LimitWriter)
      ensures this.inner == inner && hasher == Crc32.INITIAL
    {
      this.inner, hasher := inner, Crc32.INITIAL;
    }

    method Write(buf: bytes) returns (ok: bool, n: nat)
      requires inner.Open()
      modifies this`hasher, inner`remaining, inner.disk
      ensures inner.Open() && n <= |buf| && OnlyThere(old(inner.disk.State()), inner.disk.State(), inner.inner)
      ensures ok ==> (n == 0 <==> buf == []) && inner.remaining == old(inner.remaining) - n
      ensures ok ==> inner.disk.State() == Appended(old(inner.disk.State()), inner.inner, buf[..n])
      ensures ok ==> hasher == Crc32.Update(old(hasher), buf[..n]) && inner.disk.faulted == old(inner.disk.faulted)
      ensures !ok && !inner.disk.faulted ==> |buf| > old(inner.remaining)
    {
      ok, n := inner.Write(buf);
      if ok {
        hasher := Crc32.Update(hasher, buf[..n]);
      }
    }

    /** The decoder's `write_all`: as many writes as it takes, each hashed by what was taken of it. */
    method WriteAll(buf: bytes, ghost before: Output, ghost out: bytes, ghost limit: nat) returns (ok: bool)
      requires inner.Open() && (inner.inner.ToFile? ==> inner.inner.path in before.files)
      requires Emitted(inner, hasher, before, out, limit)
      modifies this`hasher, inner`remaining, inner.disk
      ensures inner.Open() && OnlyThere(before, inner.disk.State(), inner.inner)
      ensures ok ==> Emitted(inner, hasher, before, out + buf, limit) && inner.disk.faulted == old(inner.disk.faulted)
      ensures !ok && !inner.disk.faulted ==> |out| + |buf| > limit
    {
      hide Appended, OnlyThere, Crc32.Update;
      var at := 0;
      assert out + buf[..0] == out;
      while at < |buf|
        invariant 0 <= at <= |buf| && inner.Open() && Emitted(inner, hasher, before, out + buf[..at], limit)
        invariant inner.disk.faulted == old(inner.disk.faulted)
      {
        ghost var here := inner.disk.State();
        var n;
        ok, n := Write(buf[at..]);
        OnlyThereTwice(before, here, inner.disk.State(), inner.inner);
        if !ok {
          return;
        }
        EmittedPart(before, inner.inner, out, buf, at, n);
        at := at + n;
      }
      assert out + buf[..at] == out + buf;
      return true;
    }
  }

  lemma EmittedPart(before: Output, w: Writer, out: bytes, buf: bytes, at: nat, n: nat)
    requires at + n <= |buf| && (w.ToFile? ==> w.path in before.files)
    ensures var piece := buf[at..][..n];
      && out + buf[..at] + piece == out + buf[..at + n]
      && Crc32.Update(Crc32.INITIAL, out + buf[..at + n])
         == Crc32.Update(Crc32.Update(Crc32.INITIAL, out + buf[..at]), piece)
      && (w.ToFile? ==> w.path in Appended(before, w, out + buf[..at]).files)
      && Appended(Appended(before, w, out + buf[..at]), w, piece) == Appended(before, w, out + buf[..at + n])
  {
    hide Crc32.Update;
    var piece := buf[at..][..n];
    assert out + buf[..at] + piece == out + buf[..at + n];
    Crc32.UpdateAppend(Crc32.INITIAL, out + buf[..at], piece);
    AppendedTwice(before, w, out + buf[..at], piece);
  }

  /** The decoder at work on the hashing writer over the bounded one. */
  method RunDecoder(w: LimitWriter, d: Decoding, refused: Error, broken: Error) returns (res: Result<bv32>)
    requires w.Open()
    modifies w`remaining, w.disk
    ensures w.Open() && OnlyThere(old(w.disk.State()), w.disk.State(), w.inner)
    ensures Delivered(
      DecoderOutcome(d, old(w.remaining), refused, broken), res, old(w.disk.State()), w.disk.State(), w.inner,
      old(w.disk.faulted), w.disk.faulted)
  {
    hide Appended, OnlyThere, Emitted, Crc32.Finalize, Crc32.Checksum, Crc32.Update, Flatten;
    var sink := new HashingWriter(w);
    ghost var before, limit := w.disk.State(), w.remaining;
    SamePlace(before, w.inner);
    EmittedNothing(w);
    var ok := Pour(sink, d.writes, before, limit);
    if !ok {
      return Err(refused);
    }
    EmittedAll(w, sink.hasher, before, Flatten(d.writes), limit);
    if !d.ok {
      return Err(broken);
    }
    return Ok(Crc32.Finalize(sink.hasher));
  }

  /** The decoder's writes, one after the other. */
  method Pour(sink: HashingWriter, chunks: seq<bytes>, ghost before: Output, ghost limit: nat) returns (ok: bool)
    requires sink.inner.Open() && (sink.inner.inner.ToFile? ==> sink.inner.inner.path in before.files)
    requires Emitted(sink.inner, sink.hasher, before, [], limit)
    modifies sink, sink.inner`remaining, sink.inner.disk
    ensures sink.inner.Open() && OnlyThere(before, sink.inner.disk.State(), sink.inner.inner)
    ensures ok ==>
      && Emitted(sink.inner, sink.hasher, before, Flatten(chunks), limit)
      && sink.inner.disk.faulted == old(sink.inner.disk.faulted)
    ensures !ok && !sink.inner.disk.faulted ==> |Flatten(chunks)| > limit
  {
    hide Appended, OnlyThere, Emitted, Flatten;
    ghost var out: bytes := [];
    EmittedAll(sink.inner, sink.hasher, before, out, limit);
    assert chunks[0..] == chunks && [] + Flatten(chunks) == Flatten(chunks);
    for i := 0 to |chunks|
      invariant sink.inner.Open() && OnlyThere(before, sink.inner.disk.State(), sink.inner.inner)
      invariant out + Flatten(chunks[i..]) == Flatten(chunks)
      invariant Emitted(sink.inner, sink.hasher, before, out, limit)
      invariant sink.inner.disk.faulted == old(sink.inner.disk.faulted)
    {
      FlattenFrom(chunks, i);
      ok := sink.WriteAll(chunks[i], before, out, limit);
      if !ok {
        return;
      }
      EmittedAll(sink.inner, sink.hasher, before, out + chunks[i], limit);
      out := out + chunks[i];
    }
    FlattenEnd(chunks);
    assert out + [] == out == Flatten(chunks);
    return true;
  }

  // ---------- bzip2: decryption on short reads ----------

  /** `DecryptingReader`: a bounded reader that decrypts exactly the bytes each read returned. */
  class DecryptingReader {
    const inner: MultiVolumeReader
    const crypto: Decryptor
    var left: nat

    constructor (inner: MultiVolumeReader, crypto: Decryptor, limit: nat)
      ensures this.inner == inner && this.crypto == crypto && left == limit
    {
      this.inner, this.crypto, left := inner, crypto, limit;
    }

    /** `read`: nothing only for an empty buffer, a used-up bound or the end of the archive. */
    method Read(buf: array<byte>) returns (n: nat)
      requires inner.Valid() && crypto.Valid() && buf !in crypto.Parts()
      requires crypto.Parts() !! ({inner, this} + inner.Files())
      modifies this`left, inner, inner.Files(), crypto.Parts(), buf
      ensures inner.Valid() && crypto.Valid() && n <= buf.Length && n <= old(left) && left == old(left) - n
      ensures inner.logicalPos == old(inner.logicalPos) + n
      ensures n == 0 <==> buf.Length == 0 || old(left) == 0 || old(inner.logicalPos) >= |inner.Flat()|
      ensures n > 0 ==> inner.logicalPos <= |inner.Flat()|
      ensures var raw := Window(inner.Flat(), old(inner.logicalPos), n);
        buf[..n] == Decrypted(old(crypto.Now()), raw) && crypto.Now() == After(old(crypto.Now()), raw)
    {
      hide Decrypted, After, FlatOf, Decryptor.Valid, Decryptor.Now;
      var limit := if buf.Length <= left then buf.Length else left;
      ghost var p, start := inner.logicalPos, crypto.Now();
      DecryptNothing(start);
      n := inner.Read(buf, 0, limit);
      left := left - n;
      if n > 0 {
        assert buf[0..n] == buf[..n] == Window(inner.Flat(), p, n);
        DecryptFront(Some(crypto), buf, n);
      }
    }
  }
}
