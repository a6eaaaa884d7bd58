/** The inflating loop of src/decompress/deflate.rs on values: which calls the inflater gets, and what comes of them. */
module Inflation {
  import opened Bytes
  import opened Errors

  const IN_BUF_SIZE := 4096
  const OUT_BUF_SIZE := 4096

  // ---------- the foreign inflater ----------

  /** One call: an error, or how much it consumed, what it produced, and whether the stream is over. */
  datatype Step = Failed | Stepped(consumed: nat, produced: bytes, end: bool)

  /** A call stays within its buffers, and with input at hand it consumes, produces or ends. */
  predicate StepWithin(t: Step, input: bytes) {
    t.Stepped? ==>
      && t.consumed <= |input| && |t.produced| <= OUT_BUF_SIZE
      && (input != [] ==> t.consumed > 0 || t.produced != [] || t.end)
  }

  /** The inflater object: its answer to a call, given the windows of all calls before. */
  type Inflater = f: (seq<bytes>, bytes) -> Step
    | forall past: seq<bytes>, input: bytes :: StepWithin(f(past, input), input)
    witness (past: seq<bytes>, input: bytes) => Failed

  /** What the calls so far have consumed. */
  function FedBy(inf: Inflater, windows: seq<bytes>): bytes {
    if windows == [] then []
    else
      var past, last := windows[..|windows| - 1], windows[|windows| - 1];
      FedBy(inf, past) + (match inf(past, last) case Failed => [] case Stepped(n, _, _) => last[..n])
  }

  /** What the calls so far have produced. */
  function MadeBy(inf: Inflater, windows: seq<bytes>): bytes {
    if windows == [] then []
    else
      var past, last := windows[..|windows| - 1], windows[|windows| - 1];
      MadeBy(inf, past) + (match inf(past, last) case Failed => [] case Stepped(_, produced, _) => produced)
  }

  // ---------- the loop ----------

  /** Everything produced, how many bytes of the block were read for it, and why the loop broke off, if it did. */
  datatype Run = Run(out: bytes, taken: nat, failed: Option<Error>)

  /** How many bytes are read next: none while the window is not used up. */
  function Wanted(size: nat, k: nat, taken: nat): nat
    requires k <= taken <= size
  {
    if k == taken then Min(size - taken, IN_BUF_SIZE) else 0
  }

  /**
   The loop from here on: k bytes of the block are consumed and `taken` are read; `plain` is what is there of the
   `size` bytes. It also stops, nothing more being of interest, once more than `limit` bytes are produced.
   */
  function InflateFrom(
    inf: Inflater, past: seq<bytes>, plain: bytes, size: nat, k: nat, taken: nat, limit: nat): (r: Run)
    requires k <= taken <= |plain| <= size
    ensures taken <= r.taken <= |plain|
    decreases size - k + limit
  {
    var end := taken + Wanted(size, k, taken);
    if end > |plain| then Run([], taken, Some(Io))
    else
      var window := plain[k..end];
      var t := inf(past, window);
      if t.Failed? then Run([], end, Some(InflateFailed))
      else if Stops(t, size, k, limit) then Run(t.produced, end, None)
      else
        Behind(
          t.produced,
          InflateFrom(inf, past + [window], plain, size, k + t.consumed, end, limit - |t.produced|))
  }

  /** The writer has had enough, the stream is over, or the block is consumed and nothing more comes. */
  predicate Stops(t: Step, size: nat, k: nat, limit: nat)
    requires t.Stepped?
  {
    |t.produced| > limit || t.end || (k + t.consumed == size && t.produced == [])
  }

  /** The four ways one turn can go. */
  lemma Turn(inf: Inflater, past: seq<bytes>, plain: bytes, size: nat, k: nat, taken: nat, limit: nat)
    requires k <= taken <= |plain| <= size
    ensures var end, r := taken + Wanted(size, k, taken), InflateFrom(inf, past, plain, size, k, taken, limit);
      if end > |plain| then r == Run([], taken, Some(Io))
      else
        var window := plain[k..end];
        var t := inf(past, window);
        if t.Failed? then r == Run([], end, Some(InflateFailed))
        else
          && k + t.consumed <= end
          && if Stops(t, size, k, limit) then r == Run(t.produced, end, None)
             else
               && size - (k + t.consumed) + (limit - |t.produced|) < size - k + limit
               && r == Behind(
                    t.produced,
                    InflateFrom(inf, past + [window], plain, size, k + t.consumed, end, limit - |t.produced|))
  {
    var end := taken + Wanted(size, k, taken);
    if end <= |plain| {
      assert StepWithin(inf(past, plain[k..end]), plain[k..end]);
    }
  }

  function Behind(front: bytes, r: Run): Run {
    r.(out := front + r.out)
  }

  function Inflate(inf: Inflater, plain: bytes, size: nat, limit: nat): Run
    requires |plain| <= size
  {
    InflateFrom(inf, [], plain, size, 0, 0, limit)
  }

  /** The outcome on a bounded writer. */
  function InflateOutcome(inf: Inflater, plain: bytes, size: nat, limit: nat): Result<bytes>
    requires |plain| <= size
  {
    var r := Inflate(inf, plain, size, limit);
    if |r.out| > limit then Err(Io)
    else if r.failed.Some? then Err(r.failed.value)
    else Ok(r.out)
  }

  // ---------- the loop, call by call ----------

  /** Where a loop stands: what is still to come completes what was produced to the whole run. */
  ghost predicate Ahead(
    inf: Inflater, past: seq<bytes>, plain: bytes, size: nat, k: nat, taken: nat, limit: nat, out: bytes)
  {
    && k <= taken <= |plain| <= size && |out| <= limit
    && Inflate(inf, plain, size, limit) == Behind(out, InflateFrom(inf, past, plain, size, k, taken, limit - |out|))
  }

  lemma AtTheStart(inf: Inflater, plain: bytes, size: nat, limit: nat)
    requires |plain| <= size
    ensures Ahead(inf, [], plain, size, 0, 0, limit, [])
  {
    hide InflateFrom;
    var r := Inflate(inf, plain, size, limit);
    assert [] + r.out == r.out;
  }

  /** One turn of the loop. */
  lemma OneCall(
    inf: Inflater, past: seq<bytes>, plain: bytes, size: nat, k: nat, taken: nat, limit: nat, out: bytes)
    requires Ahead(inf, past, plain, size, k, taken, limit, out)
    ensures var end, run := taken + Wanted(size, k, taken), Inflate(inf, plain, size, limit);
      if end > |plain| then run == Run(out, taken, Some(Io))
      else
        var t := inf(past, plain[k..end]);
        if t.Failed? then run == Run(out, end, Some(InflateFailed))
        else
          && t.consumed <= end - k && out + t.produced <= run.out
          && (|out + t.produced| <= limit ==>
                if t.end || (k + t.consumed == size && t.produced == []) then run == Run(out + t.produced, end, None)
                else
                  && Ahead(inf, past + [plain[k..end]], plain, size, k + t.consumed, end, limit, out + t.produced)
                  && size - (k + t.consumed) + (limit - |out + t.produced|) < size - k + (limit - |out|))
  {
    hide InflateFrom, StepWithin;
    Turn(inf, past, plain, size, k, taken, limit - |out|);
    var end := taken + Wanted(size, k, taken);
    if end <= |plain| && inf(past, plain[k..end]).Stepped? {
      var window := plain[k..end];
      var t := inf(past, window);
      if !Stops(t, size, k, limit - |out|) {
        BehindTwice(
          out, t.produced,
          InflateFrom(inf, past + [window], plain, size, k + t.consumed, end, limit - |out| - |t.produced|));
      }
    }
    assert out + [] == out;
  }

  lemma BehindTwice(a: bytes, b: bytes, r: Run)
    ensures Behind(a, Behind(b, r)) == Behind(a + b, r)
  {
    assert a + (b + r.out) == a + b + r.out;
  }

  /** The limit only refuses: where it is not exceeded, every limit that is not exceeded gives the same run. */
  lemma {:induction false} LimitOnlyRefuses(
    inf: Inflater, past: seq<bytes>, plain: bytes, size: nat, k: nat, taken: nat, limit: nat, other: nat)
    requires k <= taken <= |plain| <= size
    requires var r := InflateFrom(inf, past, plain, size, k, taken, limit); |r.out| <= limit && |r.out| <= other
    ensures InflateFrom(inf, past, plain, size, k, taken, other)
         == InflateFrom(inf, past, plain, size, k, taken, limit)
    decreases size - k + limit
  {
    hide InflateFrom, StepWithin;
    Turn(inf, past, plain, size, k, taken, limit);
    Turn(inf, past, plain, size, k, taken, other);
    var end := taken + Wanted(size, k, taken);
    if end <= |plain| && inf(past, plain[k..end]).Stepped? {
      var window, t := plain[k..end], inf(past, plain[k..end]);
      if !Stops(t, size, k, limit) {
        LimitOnlyRefuses(
          inf, past + [window], plain, size, k + t.consumed, end, limit - |t.produced|, other - |t.produced|);
      }
    }
  }

  // ---------- what the inflater sees ----------

  /** The windows follow each other in the block, each behind what was consumed; no call failed or was over early. */
  ghost predicate InOrder(inf: Inflater, windows: seq<bytes>, plain: bytes) {
    forall i :: 0 <= i < |windows| ==> WindowInOrder(inf, windows, plain, i)
  }

  ghost predicate WindowInOrder(inf: Inflater, windows: seq<bytes>, plain: bytes, i: nat)
    requires i < |windows|
  {
    var done := |FedBy(inf, windows[..i])|;
    && done + |windows[i]| <= |plain| && windows[i] == plain[done..done + |windows[i]|]
    && inf(windows[..i], windows[i]).Stepped?
    && (i + 1 < |windows| ==> !inf(windows[..i], windows[i]).end)
  }

  /** Called on windows that follow each other, the inflater consumes the block from its front on, without a gap. */
  lemma {:induction false} FedInOrder(inf: Inflater, windows: seq<bytes>, plain: bytes)
    requires InOrder(inf, windows, plain)
    ensures FedBy(inf, windows) <= plain
  {
    if windows != [] {
      var n := |windows| - 1;
      var past, last := windows[..n], windows[n];
      PastInOrder(inf, windows, plain);
      FedInOrder(inf, past, plain);
      assert WindowInOrder(inf, windows, plain, n);
      assert StepWithin(inf(past, last), last);
    }
  }

  lemma PastInOrder(inf: Inflater, windows: seq<bytes>, plain: bytes)
    requires windows != [] && InOrder(inf, windows, plain)
    ensures InOrder(inf, windows[..|windows| - 1], plain)
  {
    var past := windows[..|windows| - 1];
    forall i | 0 <= i < |past| ensures WindowInOrder(inf, past, plain, i) {
      assert WindowInOrder(inf, windows, plain, i);
      assert past[..i] == windows[..i];
    }
  }

  predicate Over(inf: Inflater, windows: seq<bytes>) {
    windows != [] && var t := inf(windows[..|windows| - 1], windows[|windows| - 1]); t.Stepped? && t.end
  }

  lemma OneMoreCall(inf: Inflater, past: seq<bytes>, window: bytes, plain: bytes)
    requires InOrder(inf, past, plain) && !Over(inf, past) && inf(past, window).Stepped?
    requires var k := |FedBy(inf, past)|; k + |window| <= |plain| && window == plain[k..k + |window|]
    ensures var windows, t := past + [window], inf(past, window);
      && InOrder(inf, windows, plain) && (Over(inf, windows) <==> t.end)
      && |FedBy(inf, windows)| == |FedBy(inf, past)| + t.consumed
      && MadeBy(inf, windows) == MadeBy(inf, past) + t.produced
  {
    var windows, t := past + [window], inf(past, window);
    assert StepWithin(t, window);
    assert windows[..|past|] == past;
    forall i | 0 <= i < |windows| ensures WindowInOrder(inf, windows, plain, i) {
      if i < |past| {
        assert WindowInOrder(inf, past, plain, i);
        assert windows[..i] == past[..i];
      }
    }
  }

  /**
   The loop is a run of the inflater: it is called on windows that follow each other in the block; all it produced is
   all that is put out; the loop ends well only if the inflater said so or the whole block was consumed, and badly only
   if the inflater failed on the window that follows or the block is not all there.
   */
  lemma {:induction false} LoopIsRun(
    inf: Inflater, past: seq<bytes>, plain: bytes, size: nat, k: nat, taken: nat, limit: nat)
    returns (windows: seq<bytes>)
    requires k <= taken <= |plain| <= size
    requires InOrder(inf, past, plain) && !Over(inf, past) && |FedBy(inf, past)| == k
    ensures InOrder(inf, windows, plain)
    ensures Explains(
      inf, windows, plain, size, limit, MadeBy(inf, past), InflateFrom(inf, past, plain, size, k, taken, limit))
    decreases size - k + limit
  {
    hide InOrder, Over, FedBy, MadeBy, InflateFrom, StepWithin, Explains;
    Turn(inf, past, plain, size, k, taken, limit);
    var end := taken + Wanted(size, k, taken);
    windows := past;
    if end <= |plain| && inf(past, plain[k..end]).Stepped? {
      var window := plain[k..end];
      var t := inf(past, window);
      OneMoreCall(inf, past, window, plain);
      windows := past + [window];
      if Stops(t, size, k, limit) {
        StopExplained(inf, past, window, plain, size, k, end, limit);
      } else {
        windows := LoopIsRun(inf, windows, plain, size, k + t.consumed, end, limit - |t.produced|);
        MoreExplained(
          inf, windows, plain, size, limit, MadeBy(inf, past), t.produced,
          InflateFrom(inf, past + [window], plain, size, k + t.consumed, end, limit - |t.produced|));
      }
    } else {
      BreakExplained(inf, past, plain, size, k, taken, limit);
    }
  }

  /** What a run of the loop says about the calls made, `before` being what was produced earlier. */
  ghost predicate Explains(
    inf: Inflater, windows: seq<bytes>, plain: bytes, size: nat, limit: nat, before: bytes, r: Run)
  {
    && MadeBy(inf, windows) == before + r.out
    && |FedBy(inf, windows)| <= r.taken <= |plain|
    && (r.failed.None? && |r.out| <= limit ==> Over(inf, windows) || |FedBy(inf, windows)| == size)
    && (r.failed.Some? ==>
          || (r.failed == Some(Io) && |plain| < size)
          || (r.failed == Some(InflateFailed) && inf(windows, plain[|FedBy(inf, windows)|..r.taken]).Failed?))
  }

  lemma StopExplained(
    inf: Inflater, past: seq<bytes>, window: bytes, plain: bytes, size: nat, k: nat, end: nat, limit: nat)
    requires k <= end <= |plain| <= size && inf(past, window).Stepped? && |FedBy(inf, past)| == k
    requires var t := inf(past, window); Stops(t, size, k, limit) && k + t.consumed <= end
    requires var windows, t := past + [window], inf(past, window);
      && (Over(inf, windows) <==> t.end) && |FedBy(inf, windows)| == k + t.consumed
      && MadeBy(inf, windows) == MadeBy(inf, past) + t.produced
    ensures Explains(
      inf, past + [window], plain, size, limit, MadeBy(inf, past), Run(inf(past, window).produced, end, None))
  {
    hide FedBy, MadeBy, Over, StepWithin;
  }

  lemma MoreExplained(
    inf: Inflater, windows: seq<bytes>, plain: bytes, size: nat, limit: nat, before: bytes, produced: bytes, r: Run)
    requires |produced| <= limit && Explains(inf, windows, plain, size, limit - |produced|, before + produced, r)
    ensures Explains(inf, windows, plain, size, limit, before, Behind(produced, r))
  {
    hide FedBy, MadeBy, Over, StepWithin;
    assert before + produced + r.out == before + (produced + r.out);
  }

  lemma BreakExplained(
    inf: Inflater, past: seq<bytes>, plain: bytes, size: nat, k: nat, taken: nat, limit: nat)
    requires k <= taken <= |plain| <= size && |FedBy(inf, past)| == k
    requires var end := taken + Wanted(size, k, taken); end > |plain| || inf(past, plain[k..end]).Failed?
    ensures Explains(
      inf, past, plain, size, limit, MadeBy(inf, past), InflateFrom(inf, past, plain, size, k, taken, limit))
  {
    hide FedBy, MadeBy, Over, StepWithin;
    assert MadeBy(inf, past) + [] == MadeBy(inf, past);
  }

  /** The same for a whole block: what is consumed is a prefix of it, and what is produced is the output. */
  lemma InflateIsRun(inf: Inflater, plain: bytes, size: nat, limit: nat) returns (windows: seq<bytes>)
    requires |plain| <= size
    ensures InOrder(inf, windows, plain) && FedBy(inf, windows) <= plain
    ensures match InflateOutcome(inf, plain, size, limit)
      case Ok(out) =>
        out == MadeBy(inf, windows) && |out| <= limit && (Over(inf, windows) || FedBy(inf, windows) == plain)
      case Err(error) =>
        || (error == Io && (|MadeBy(inf, windows)| > limit || |plain| < size))
        || (error == InflateFailed
            && exists n :: |FedBy(inf, windows)| <= n <= |plain|
                 && inf(windows, plain[|FedBy(inf, windows)|..n]).Failed?)
  {
    hide InflateFrom;
    windows := LoopIsRun(inf, [], plain, size, 0, 0, limit);
    FedInOrder(inf, windows, plain);
    var r := Inflate(inf, plain, size, limit);
    assert [] + r.out == r.out;
  }

  // ---------- the loop as a list of calls ----------

  /** Up to where the block was read for these calls. */
  function ReadFor(inf: Inflater, windows: seq<bytes>): nat {
    if windows == [] then 0
    else |FedBy(inf, windows[..|windows| - 1])| + |windows[|windows| - 1]|
  }

  /** The window holds what is left of the one before, or, where nothing is, the next at most 4096 bytes. */
  predicate IsNextWindow(inf: Inflater, past: seq<bytes>, window: bytes, plain: bytes, size: nat) {
    var k, taken := |FedBy(inf, past)|, ReadFor(inf, past);
    && k <= taken <= size
    && var end := if k < taken then taken else Min(taken + 4096, size);
       end <= |plain| && k <= end && window == plain[k..end]
  }

  /** The loop ends after this call: the stream is over, or all is consumed and nothing more comes. */
  predicate EndsLoop(inf: Inflater, past: seq<bytes>, window: bytes, size: nat) {
    var t := inf(past, window);
    t.Stepped? && (t.end || (|FedBy(inf, past)| + t.consumed == size && t.produced == []))
  }

  ghost predicate IsCall(inf: Inflater, windows: seq<bytes>, plain: bytes, size: nat, i: nat)
    requires i < |windows|
  {
    && IsNextWindow(inf, windows[..i], windows[i], plain, size) && inf(windows[..i], windows[i]).Stepped?
    && (EndsLoop(inf, windows[..i], windows[i], size) <==> i == |windows| - 1)
  }

  /** All calls of a loop that ends well. */
  ghost predicate IsLoop(inf: Inflater, windows: seq<bytes>, plain: bytes, size: nat) {
    windows != [] && forall i :: 0 <= i < |windows| ==> IsCall(inf, windows, plain, size, i)
  }

  lemma CallAdds(inf: Inflater, past: seq<bytes>, window: bytes)
    requires inf(past, window).Stepped?
    ensures var windows, t := past + [window], inf(past, window);
      && FedBy(inf, windows) == FedBy(inf, past) + window[..t.consumed]
      && MadeBy(inf, windows) == MadeBy(inf, past) + t.produced
      && ReadFor(inf, windows) == |FedBy(inf, past)| + |window| && t.consumed <= |window|
  {
    assert (past + [window])[..|past|] == past;
    assert StepWithin(inf(past, window), window);
  }

  lemma WantedIs(size: nat, k: nat, taken: nat)
    requires k <= taken <= size
    ensures taken + Wanted(size, k, taken) == if k < taken then taken else Min(taken + 4096, size)
  {
  }

  /** A list of calls that is the loop's is what the loop does: from call i on it runs to the end of the list. */
  lemma {:induction false} LoopFollows(
    inf: Inflater, windows: seq<bytes>, plain: bytes, size: nat, limit: nat, i: nat)
    requires |plain| <= size && IsLoop(inf, windows, plain, size) && |MadeBy(inf, windows)| <= limit && i < |windows|
    requires var past := windows[..i];
      |FedBy(inf, past)| <= ReadFor(inf, past) <= |plain| && |MadeBy(inf, past)| <= limit
    ensures var past := windows[..i];
      var r := InflateFrom(
        inf, past, plain, size, |FedBy(inf, past)|, ReadFor(inf, past), limit - |MadeBy(inf, past)|);
      MadeBy(inf, past) + r.out == MadeBy(inf, windows) && r.failed.None? && r.taken == ReadFor(inf, windows)
    decreases |windows| - i
  {
    hide InflateFrom, FedBy, MadeBy, ReadFor, IsLoop, StepWithin;
    var past, window := windows[..i], windows[i];
    var k, taken, left := |FedBy(inf, past)|, ReadFor(inf, past), limit - |MadeBy(inf, past)|;
    CallIs(inf, windows, plain, size, i);
    WantedIs(size, k, taken);
    Turn(inf, past, plain, size, k, taken, left);
    CallAdds(inf, past, window);
    var t := inf(past, window);
    assert windows[..i + 1] == past + [window];
    MadeGrows(inf, windows, i + 1);
    if i == |windows| - 1 {
      assert windows[..i + 1] == windows;
    } else {
      LoopFollows(inf, windows, plain, size, limit, i + 1);
      var next := past + [window];
      var end := taken + Wanted(size, k, taken);
      var rest := InflateFrom(inf, next, plain, size, k + t.consumed, end, left - |t.produced|);
      assert MadeBy(inf, past) + (t.produced + rest.out) == MadeBy(inf, past) + t.produced + rest.out;
    }
  }

  lemma CallIs(inf: Inflater, windows: seq<bytes>, plain: bytes, size: nat, i: nat)
    requires IsLoop(inf, windows, plain, size) && i < |windows|
    ensures IsCall(inf, windows, plain, size, i)
  {
  }

  lemma {:induction false} MadeGrows(inf: Inflater, windows: seq<bytes>, i: nat)
    requires i <= |windows|
    ensures |MadeBy(inf, windows[..i])| <= |MadeBy(inf, windows)|
    decreases |windows| - i
  {
    if i < |windows| {
      MadeGrows(inf, windows, i + 1);
      assert windows[..i + 1][..i] == windows[..i];
    } else {
      assert windows[..i] == windows;
    }
  }

  /** Calls that do not end the loop. */
  ghost predicate GoesOn(inf: Inflater, past: seq<bytes>, plain: bytes, size: nat) {
    forall i :: 0 <= i < |past| ==> GoesOnAt(inf, past, plain, size, i)
  }

  ghost predicate GoesOnAt(inf: Inflater, past: seq<bytes>, plain: bytes, size: nat, i: nat)
    requires i < |past|
  {
    && IsNextWindow(inf, past[..i], past[i], plain, size) && inf(past[..i], past[i]).Stepped?
    && !EndsLoop(inf, past[..i], past[i], size)
  }

  lemma GoesOnMore(inf: Inflater, past: seq<bytes>, window: bytes, plain: bytes, size: nat)
    requires GoesOn(inf, past, plain, size) && IsNextWindow(inf, past, window, plain, size)
    requires inf(past, window).Stepped?
    ensures EndsLoop(inf, past, window, size) ==> IsLoop(inf, past + [window], plain, size)
    ensures !EndsLoop(inf, past, window, size) ==> GoesOn(inf, past + [window], plain, size)
  {
    hide IsNextWindow, EndsLoop;
    var windows := past + [window];
    assert windows[..|past|] == past;
    forall i | 0 <= i < |past|
      ensures GoesOnAt(inf, past, plain, size, i) && windows[..i] == past[..i] && windows[i] == past[i]
    {
    }
  }

  /** What the loop does is a list of calls. */
  lemma {:induction false} LoopListed(
    inf: Inflater, past: seq<bytes>, plain: bytes, size: nat, k: nat, taken: nat, limit: nat)
    returns (windows: seq<bytes>)
    requires k == |FedBy(inf, past)| <= taken == ReadFor(inf, past) <= |plain| <= size
    requires GoesOn(inf, past, plain, size)
    requires var r := InflateFrom(inf, past, plain, size, k, taken, limit); r.failed.None? && |r.out| <= limit
    ensures IsLoop(inf, windows, plain, size)
    ensures MadeBy(inf, windows) == MadeBy(inf, past) + InflateFrom(inf, past, plain, size, k, taken, limit).out
    decreases size - k + limit
  {
    hide InflateFrom, FedBy, MadeBy, ReadFor, IsLoop, GoesOn, StepWithin;
    Turn(inf, past, plain, size, k, taken, limit);
    WantedIs(size, k, taken);
    var end := taken + Wanted(size, k, taken);
    var window := plain[k..end];
    var t := inf(past, window);
    GoesOnMore(inf, past, window, plain, size);
    CallAdds(inf, past, window);
    windows := past + [window];
    if !Stops(t, size, k, limit) {
      windows := LoopListed(inf, windows, plain, size, k + t.consumed, end, limit - |t.produced|);
      var rest := InflateFrom(inf, past + [window], plain, size, k + t.consumed, end, limit - |t.produced|);
      assert MadeBy(inf, past) + (t.produced + rest.out) == MadeBy(inf, past) + t.produced + rest.out;
    }
  }

  /** A bounded writer gets exactly what the calls of a loop that ends well produce, if it is not too much. */
  lemma OutcomeIsLoop(inf: Inflater, plain: bytes, size: nat, limit: nat, out: bytes)
    requires |plain| <= size
    ensures InflateOutcome(inf, plain, size, limit) == Ok(out)
       <==> |out| <= limit && exists windows :: IsLoop(inf, windows, plain, size) && out == MadeBy(inf, windows)
  {
    hide InflateFrom, IsLoop;
    var r := Inflate(inf, plain, size, limit);
    if InflateOutcome(inf, plain, size, limit) == Ok(out) {
      var windows := LoopListed(inf, [], plain, size, 0, 0, limit);
      assert [] + r.out == r.out;
    }
    if |out| <= limit && exists windows :: IsLoop(inf, windows, plain, size) && out == MadeBy(inf, windows) {
      var windows :| IsLoop(inf, windows, plain, size) && out == MadeBy(inf, windows);
      NotEmpty(inf, windows, plain, size);
      assert windows[..0] == [];
      LoopFollows(inf, windows, plain, size, limit, 0);
      assert [] + r.out == r.out;
    }
  }

  /** The same with how far the block was read. */
  lemma LoopIsInflate(inf: Inflater, windows: seq<bytes>, plain: bytes, size: nat, limit: nat)
    requires |plain| <= size && IsLoop(inf, windows, plain, size) && |MadeBy(inf, windows)| <= limit
    ensures Inflate(inf, plain, size, limit) == Run(MadeBy(inf, windows), ReadFor(inf, windows), None)
  {
    hide InflateFrom, IsLoop;
    NotEmpty(inf, windows, plain, size);
    assert windows[..0] == [];
    LoopFollows(inf, windows, plain, size, limit, 0);
    assert [] + Inflate(inf, plain, size, limit).out == Inflate(inf, plain, size, limit).out;
  }

  /** Such calls come to the block in order. */
  lemma LoopInOrder(inf: Inflater, windows: seq<bytes>, plain: bytes, size: nat)
    requires IsLoop(inf, windows, plain, size)
    ensures InOrder(inf, windows, plain)
    ensures Over(inf, windows) || |FedBy(inf, windows)| == size
  {
    hide FedBy, MadeBy, ReadFor;
    forall i | 0 <= i < |windows| ensures WindowInOrder(inf, windows, plain, i) {
      assert IsCall(inf, windows, plain, size, i);
    }
    var n := |windows| - 1;
    assert IsCall(inf, windows, plain, size, n);
    CallAdds(inf, windows[..n], windows[n]);
    assert windows == windows[..n] + [windows[n]];
  }

  lemma NotEmpty(inf: Inflater, windows: seq<bytes>, plain: bytes, size: nat)
    requires IsLoop(inf, windows, plain, size)
    ensures |windows| > 0
  {
  }
}
