/**
  Log lines waiting for the next flush: a bounded queue that drops its oldest lines, counts what it
  dropped, and forgets nothing before the message carrying it has gone.
*/
module LogBuffer {
  import opened Prelude

  const PENDING_BATCHES: nat := 5
  const USIZE_MAX: nat := 0xFFFF_FFFF_FFFF_FFFF

  /** What one message carries: lines, and the notice standing for `count` lines dropped since `since`. */
  datatype Entry<T> = Line(line: T) | Notice(count: nat, since: nat)

  /** The buffer's value. `gapOpened` is when the first line of the present gap was dropped. */
  datatype Queue<T> = Queue(lines: seq<T>, capacity: nat, dropped: nat, gapOpened: Option<nat>)

  /** Capacity for a batch size; the multiplication saturates. */
  function PendingLines(max: nat): nat {
    Min(max * PENDING_BATCHES, USIZE_MAX)
  }

  predicate Valid<T>(q: Queue<T>) {
    && 1 <= q.capacity && |q.lines| <= q.capacity
    && (q.dropped > 0 <==> q.gapOpened.Some?)
  }

  function Pushed<T>(q: Queue<T>, line: T, now: nat): Queue<T> {
    var all := q.lines + [line];
    if |all| <= q.capacity then q.(lines := all)
    else Queue(all[|all| - q.capacity..], q.capacity, q.dropped + (|all| - q.capacity),
               if q.gapOpened.Some? then q.gapOpened else Some(now))
  }

  function Len<T>(q: Queue<T>): nat {
    |q.lines| + if q.dropped > 0 then 1 else 0
  }

  /** Everything waiting, as it would be sent by one unlimited message. */
  function Waiting<T>(q: Queue<T>): seq<Entry<T>> {
    (if q.dropped > 0 && q.gapOpened.Some? then [Notice(q.dropped, q.gapOpened.value)] else [])
    + AsEntries(q.lines)
  }

  function AsEntries<T>(lines: seq<T>): (es: seq<Entry<T>>)
    ensures |es| == |lines| && forall i :: 0 <= i < |lines| ==> es[i] == Line(lines[i])
  {
    seq(|lines|, i requires 0 <= i < |lines| => Line(lines[i]))
  }

  /** The buffer after the first `count` waiting entries have gone. */
  function Sent<T>(q: Queue<T>, count: nat): Queue<T> {
    if count == 0 then q
    else
      var n := if q.dropped > 0 then count - 1 else count;
      q.(lines := q.lines[Min(n, |q.lines|)..], dropped := 0, gapOpened := None)
  }

  class Pending<T> {
    var lines: seq<T>
    var capacity: nat
    var dropped: nat
    var gapOpened: Option<nat>

    function Value(): Queue<T>
      reads this
    {
      Queue(lines, capacity, dropped, gapOpened)
    }

    constructor (capacity: nat)
      ensures Valid(Value()) && Value() == Queue([], if capacity < 1 then 1 else capacity, 0, None)
    {
      this.lines := [];
      this.capacity := if capacity < 1 then 1 else capacity;
      this.dropped := 0;
      this.gapOpened := None;
    }

    method Push(line: T, now: nat)
      requires Valid(Value())
      modifies this
      ensures Valid(Value()) && Value() == Pushed(old(Value()), line, now)
    {
      lines := lines + [line];
      ghost var all := lines;
      while |lines| > capacity
        invariant capacity == old(capacity) && |lines| <= |all| == |old(lines)| + 1
        invariant lines == all[|all| - |lines|..]
        invariant dropped == old(dropped) + (|all| - |lines|)
        invariant |lines| < |all| ==> |lines| >= capacity
        invariant gapOpened == if |lines| < |all| && old(gapOpened).None? then Some(now) else old(gapOpened)
      {
        lines := lines[1..];
        dropped := dropped + 1;
        if gapOpened.None? {
          gapOpened := Some(now);
        }
      }
      assert all[0..] == all;
    }

    method Batch(max: nat, now: nat) returns (batch: seq<Entry<T>>)
      requires Valid(Value())
      ensures batch == Waiting(Value())[..Min(max, Len(Value()))]
    {
      batch := [];
      if dropped > 0 {
        batch := [Notice(dropped, match gapOpened case Some(t) => t case None => now)];
      }
      var room := if max < |batch| then 0 else max - |batch|;
      ghost var head := batch;
      var i := 0;
      while i < |lines| && i < room
        invariant 0 <= i <= |lines| && i <= room
        invariant batch == head + AsEntries(lines[..i])
      {
        batch := batch + [Line(lines[i])];
        i := i + 1;
        assert AsEntries(lines[..i]) == AsEntries(lines[..i - 1]) + [Line(lines[i - 1])];
      }
      assert head + AsEntries(lines) == Waiting(Value());
      assert AsEntries(lines[..i]) == AsEntries(lines)[..i];
      if max < |batch| {
        batch := batch[..max];
      }
    }

    method MarkSent(count: nat)
      requires Valid(Value())
      modifies this
      ensures Valid(Value()) && Value() == Sent(old(Value()), count)
    {
      ghost var before := lines;
      var left := count;
      if dropped > 0 && left > 0 {
        dropped := 0;
        gapOpened := None;
        left := left - 1;
      }
      ghost var d, g := dropped, gapOpened;
      for i := 0 to left
        invariant capacity == old(capacity) && dropped == d && gapOpened == g
        invariant |lines| == |before| - Min(i, |before|)
        invariant lines == before[|before| - |lines|..]
      {
        if lines != [] {
          lines := lines[1..];
        }
      }
    }

    /**
      The session's flush tick: one message with the next batch, forgotten only once `accepted`
      by the socket. Nothing is sent before the platform attached logging, nor when nothing waits.
    */
    method Flush(attached: bool, max: nat, now: nat, accepted: bool) returns (message: Option<seq<Entry<T>>>)
      requires Valid(Value())
      modifies this
      ensures Valid(Value())
      ensures message.Some? <==> attached && Len(old(Value())) > 0
      ensures message.Some? ==> message.value == NextBatch(old(Value()), max)
      ensures Value() == if message.Some? && accepted then Sent(old(Value()), |message.value|) else old(Value())
    {
      message := None;
      if attached && |lines| + (if dropped > 0 then 1 else 0) > 0 {
        var batch := Batch(max, now);
        message := Some(batch);
        if accepted {
          MarkSent(|batch|);
        }
      }
    }
  }

  /** What the next message carries. */
  function NextBatch<T>(q: Queue<T>, max: nat): seq<Entry<T>>
    requires Valid(q)
  {
    Waiting(q)[..Min(max, Len(q))]
  }

  // ---- Runs ---------------------------------------------------------------------------------

  /** A line from the tail, or a flush that the socket takes or does not. */
  datatype Op<T> = Push(line: T, now: nat) | Flush(accepted: bool)

  /** The buffer, the lines ever pushed, and the entries of every message that went out. */
  datatype History<T> = History(q: Queue<T>, pushed: seq<T>, delivered: seq<Entry<T>>)

  function Apply<T>(h: History<T>, max: nat, op: Op<T>): History<T>
    requires Valid(h.q)
  {
    match op
    case Push(line, now) => History(Pushed(h.q, line, now), h.pushed + [line], h.delivered)
    case Flush(accepted) =>
      if accepted && Len(h.q) > 0
      then History(Sent(h.q, |NextBatch(h.q, max)|), h.pushed, h.delivered + NextBatch(h.q, max))
      else h
  }

  /**
    Reading the delivered entries against a stream: each line is the next line of the stream,
    and each notice stands for as many of its next lines as it counts. What is left is returned.
  */
  ghost predicate Explains<T>(entries: seq<Entry<T>>, stream: seq<T>, rest: seq<T>)
    decreases |entries|
  {
    if entries == [] then rest == stream
    else match entries[0]
      case Line(l) => stream != [] && stream[0] == l && Explains(entries[1..], stream[1..], rest)
      case Notice(n, _) => 0 < n <= |stream| && Explains(entries[1..], stream[n..], rest)
  }

  /** Pushed = what the delivered entries stand for ++ the lines dropped and not yet reported ++ the lines waiting. */
  ghost predicate Accounted<T(!new)>(h: History<T>) {
    exists gap: seq<T> :: |gap| == h.q.dropped && Explains(h.delivered, h.pushed, gap + h.q.lines)
  }

  ghost predicate Sound<T(!new)>(h: History<T>) {
    Valid(h.q) && Accounted(h)
  }

  lemma {:induction false} ExplainsMore<T>(es: seq<Entry<T>>, stream: seq<T>, rest: seq<T>, more: seq<T>)
    requires Explains(es, stream, rest)
    ensures Explains(es, stream + more, rest + more)
    decreases |es|
  {
    if es != [] {
      var n := match es[0] case Line(_) => 1 case Notice(k, _) => k;
      assert (stream + more)[n..] == stream[n..] + more;
      ExplainsMore(es[1..], stream[n..], rest, more);
    }
  }

  lemma {:induction false} ExplainsThen<T>(es: seq<Entry<T>>, fs: seq<Entry<T>>, s: seq<T>, mid: seq<T>, rest: seq<T>)
    requires Explains(es, s, mid) && Explains(fs, mid, rest)
    ensures Explains(es + fs, s, rest)
    decreases |es|
  {
    if es == [] {
      assert es + fs == fs;
    } else {
      assert (es + fs)[1..] == es[1..] + fs;
      var n := match es[0] case Line(_) => 1 case Notice(k, _) => k;
      ExplainsThen(es[1..], fs, s[n..], mid, rest);
    }
  }

  lemma {:induction false} LinesExplain<T>(lines: seq<T>, n: nat)
    requires n <= |lines|
    ensures Explains(AsEntries(lines)[..n], lines, lines[n..])
    decreases n
  {
    if n > 0 {
      LinesExplain(lines[1..], n - 1);
      assert AsEntries(lines)[..n][1..] == AsEntries(lines[1..])[..n - 1];
      assert lines[n..] == lines[1..][n - 1..];
    }
  }

  /** Without a gap, the first `n` waiting entries stand for the first `n` lines. */
  lemma PlainBatchExplains<T>(q: Queue<T>, n: nat)
    requires Valid(q) && q.dropped == 0 && 0 < n <= Len(q)
    ensures Sent(q, n).dropped == 0 && Explains(Waiting(q)[..n], q.lines, Sent(q, n).lines)
  {
    assert Waiting(q) == AsEntries(q.lines);
    LinesExplain(q.lines, n);
  }

  /** With a gap, the notice comes first and stands for all of it. */
  lemma NoticedBatchExplains<T>(q: Queue<T>, gap: seq<T>, n: nat)
    requires Valid(q) && q.dropped > 0 && |gap| == q.dropped && 0 < n <= Len(q)
    ensures Sent(q, n).dropped == 0 && Explains(Waiting(q)[..n], gap + q.lines, Sent(q, n).lines)
  {
    var batch := Waiting(q)[..n];
    LinesExplain(q.lines, n - 1);
    assert batch[1..] == AsEntries(q.lines)[..n - 1];
    assert (gap + q.lines)[q.dropped..] == q.lines;
    assert batch[0] == Notice(q.dropped, q.gapOpened.value);
  }

  /** A batch stands for exactly what it takes out of the buffer. */
  lemma BatchExplains<T(!new)>(q: Queue<T>, gap: seq<T>, max: nat)
    requires Valid(q) && |gap| == q.dropped
    ensures var q' := Sent(q, |NextBatch(q, max)|);
            exists gap' :: |gap'| == q'.dropped && Explains(NextBatch(q, max), gap + q.lines, gap' + q'.lines)
  {
    var n := Min(max, Len(q));
    var q' := Sent(q, n);
    if n == 0 {
      assert Explains(NextBatch(q, max), gap + q.lines, gap + q'.lines);
    } else {
      assert [] + q'.lines == q'.lines;
      if q.dropped > 0 {
        NoticedBatchExplains(q, gap, n);
      } else {
        PlainBatchExplains(q, n);
        assert gap + q.lines == q.lines;
      }
      assert Explains(NextBatch(q, max), gap + q.lines, [] + q'.lines);
    }
  }

  lemma PushKeepsSound<T(!new)>(h: History<T>, max: nat, line: T, now: nat)
    requires Sound(h)
    ensures Sound(Apply(h, max, Push(line, now)))
  {
    var h' := Apply(h, max, Push(line, now));
    var gap: seq<T> :| |gap| == h.q.dropped && Explains(h.delivered, h.pushed, gap + h.q.lines);
    ExplainsMore(h.delivered, h.pushed, gap + h.q.lines, [line]);
    var all := h.q.lines + [line];
    var out := |all| - |h'.q.lines|;
    var gap' := gap + all[..out];
    CutAt(all, out);
    Associate(gap, h.q.lines, [line]);
    Associate(gap, all[..out], all[out..]);
    assert gap' + h'.q.lines == gap + all;
    assert |gap'| == h'.q.dropped;
  }

  lemma FlushKeepsSound<T(!new)>(h: History<T>, max: nat, accepted: bool)
    requires Sound(h)
    ensures Sound(Apply(h, max, Flush(accepted)))
  {
    if accepted && Len(h.q) > 0 {
      var gap: seq<T> :| |gap| == h.q.dropped && Explains(h.delivered, h.pushed, gap + h.q.lines);
      BatchExplains(h.q, gap, max);
      var q' := Sent(h.q, |NextBatch(h.q, max)|);
      var gap' :| |gap'| == q'.dropped && Explains(NextBatch(h.q, max), gap + h.q.lines, gap' + q'.lines);
      ExplainsThen(h.delivered, NextBatch(h.q, max), h.pushed, gap + h.q.lines, gap' + q'.lines);
    }
  }

  function ApplyAll<T>(h: History<T>, max: nat, ops: seq<Op<T>>): History<T>
    requires Valid(h.q)
    ensures Valid(ApplyAll(h, max, ops).q) && ApplyAll(h, max, ops).q.capacity == h.q.capacity
    decreases |ops|
  {
    if ops == [] then h else ApplyAll(Apply(h, max, ops[0]), max, ops[1..])
  }

  /**
    Over any run of pushes and flushes, taken or failed: the delivered messages, each notice
    standing for the lines it counts, are a prefix of what was pushed, and the unreported gap
    and the waiting lines are the rest of it.
  */
  lemma {:induction false} StreamIsAccountedFor<T(!new)>(h: History<T>, max: nat, ops: seq<Op<T>>)
    requires Sound(h)
    ensures Sound(ApplyAll(h, max, ops))
    decreases |ops|
  {
    if ops != [] {
      match ops[0]
      case Push(line, now) =>
        PushKeepsSound(h, max, line, now);
        StreamIsAccountedFor(Apply(h, max, ops[0]), max, ops[1..]);
      case Flush(accepted) =>
        FlushKeepsSound(h, max, accepted);
        StreamIsAccountedFor(Apply(h, max, ops[0]), max, ops[1..]);
    }
  }

  /** A new buffer is sound, so the account holds for every run of a device's life. */
  lemma NewIsSound<T(!new)>(capacity: nat)
    ensures Sound<T>(History(Queue([], if capacity < 1 then 1 else capacity, 0, None), [], []))
  {
    assert Explains<T>([], [], [] + []);
  }

  // ---- Draining -----------------------------------------------------------------------------

  /** A flush that goes out lowers the backlog by exactly what fits, and no message is over the cap. */
  lemma FlushLowersBacklog<T>(q: Queue<T>, max: nat)
    requires Valid(q)
    ensures |NextBatch(q, max)| == Min(max, Len(q))
    ensures Len(Sent(q, |NextBatch(q, max)|)) == Len(q) - Min(max, Len(q))
  {
  }

  function Drained<T>(q: Queue<T>, max: nat, flushes: nat): Queue<T>
    requires Valid(q)
    ensures Valid(Drained(q, max, flushes))
    decreases flushes
  {
    if flushes == 0 then q else Drained(Sent(q, |NextBatch(q, max)|), max, flushes - 1)
  }

  /** What is left of a backlog of `len` after `n` full messages. */
  function Left(len: nat, max: nat, n: nat): nat
    decreases n
  {
    if n == 0 then len else Left(if max <= len then len - max else 0, max, n - 1)
  }

  lemma {:induction false} LeftIsDifference(len: nat, max: nat, n: nat)
    ensures Left(len, max, n) == if n * max <= len then len - n * max else 0
    decreases n
  {
    if n > 0 {
      var rest := (n - 1) * max;
      assert n * max == rest + max;
      LeftIsDifference(if max <= len then len - max else 0, max, n - 1);
    }
  }

  lemma {:induction false} DrainedIsLeft<T>(q: Queue<T>, max: nat, n: nat)
    requires Valid(q)
    ensures Len(Drained(q, max, n)) == Left(Len(q), max, n)
    decreases n
  {
    if n > 0 {
      FlushLowersBacklog(q, max);
      DrainedIsLeft(Sent(q, |NextBatch(q, max)|), max, n - 1);
    }
  }

  /** After `n` flushes the backlog is what `n` full messages leave; it is empty from ceil(len / max) on, not before. */
  lemma BacklogDrains<T>(q: Queue<T>, max: nat, n: nat)
    requires Valid(q)
    ensures Len(Drained(q, max, n)) == if n * max <= Len(q) then Len(q) - n * max else 0
  {
    DrainedIsLeft(q, max, n);
    LeftIsDifference(Len(q), max, n);
  }

  /** From any state of a buffer sized for its batches, PENDING_BATCHES + 1 flushes empty it. */
  lemma AFewFlushesEmptyIt<T>(q: Queue<T>, max: nat, n: nat)
    requires Valid(q) && max >= 1 && q.capacity <= PendingLines(max)
    requires n > PENDING_BATCHES
    ensures Len(Drained(q, max, n)) == 0
  {
    BacklogDrains(q, max, n);
    var sent := n * max;
    Times(PENDING_BATCHES + 1, n, max);
    assert Len(q) <= max * PENDING_BATCHES + 1 <= sent;
  }

  lemma Times(k: nat, n: nat, m: nat)
    requires k <= n
    ensures k * m <= n * m
  {
  }

  /** With a batch size of zero nothing ever leaves: the buffer keeps one line and every flush sends an empty message. */
  lemma {:induction false} ZeroBatchNeverDrains<T>(q: Queue<T>, n: nat)
    requires Valid(q)
    ensures Drained(q, 0, n) == q && NextBatch(q, 0) == []
    decreases n
  {
    if n > 0 {
      ZeroBatchNeverDrains(q, n - 1);
    }
  }

  /** So a backlog drains exactly when the batch size lets something leave, or nothing waits. */
  lemma DrainsExactlyWhen<T(!new)>(q: Queue<T>, max: nat)
    requires Valid(q)
    ensures (exists n :: Len(Drained(q, max, n)) == 0) <==> max >= 1 || Len(q) == 0
  {
    if max >= 1 {
      EnoughFlushesEmptyIt(q, max);
    } else {
      forall n ensures Len(Drained(q, max, n)) == Len(q) {
        ZeroBatchNeverDrains(q, n);
      }
      assert Len(Drained(q, max, 0)) == Len(q);
    }
  }

  lemma EnoughFlushesEmptyIt<T>(q: Queue<T>, max: nat)
    requires Valid(q) && max >= 1
    ensures Len(Drained(q, max, Len(q))) == 0
  {
    var n := Len(q);
    var sent := n * max;
    BacklogDrains(q, max, n);
    Times(1, max, n);
    assert n <= max * n == sent;
  }

  // ---- Where a gap starts -----------------------------------------------------------------------

  /**
    The newest of `all` that fit, the others counted, and ahead of them the notice, dated by the
    push that dropped the first.
  */
  ghost predicate Overflowed<T>(q: Queue<T>, all: seq<T>, capacity: nat, since: Option<nat>) {
    && Valid(q) && q.capacity == capacity
    && if |all| <= capacity then q.lines == all && q.dropped == 0
       else
         && q.lines == all[|all| - capacity..] && q.dropped == |all| - capacity
         && since.Some? && q.gapOpened == since
  }

  lemma OverflowedNext<T>(q: Queue<T>, all: seq<T>, since: Option<nat>, line: T, now: nat)
    requires Overflowed(q, all, q.capacity, since)
    ensures Overflowed(Pushed(q, line, now), all + [line], q.capacity, if |all| == q.capacity then Some(now) else since)
  {
    var room := |all| - q.capacity;
    if room >= 0 {
      var kept := q.lines + [line];
      assert kept == (all + [line])[room..];
      assert kept[1..] == (all + [line])[room + 1..];
    }
  }

  /** One of a run of pushes, with the time it comes at. */
  datatype Stamped<T> = Stamped(line: T, at: nat)

  function LinesOf<T>(pushes: seq<Stamped<T>>): seq<T> {
    seq(|pushes|, i requires 0 <= i < |pushes| => pushes[i].line)
  }

  function PushAll<T>(q: Queue<T>, pushes: seq<Stamped<T>>): Queue<T> {
    if pushes == [] then q
    else
      var last := pushes[|pushes| - 1];
      Pushed(PushAll(q, pushes[..|pushes| - 1]), last.line, last.at)
  }

  /** Over any run of pushes into a buffer without a gap: what is kept, what is counted, and when the gap started. */
  lemma {:induction false} GapStartsAtItsFirstDrop<T>(q: Queue<T>, pushes: seq<Stamped<T>>)
    requires Valid(q) && q.dropped == 0
    ensures var first := q.capacity - |q.lines|;
            Overflowed(PushAll(q, pushes), q.lines + LinesOf(pushes), q.capacity,
                       if first < |pushes| then Some(pushes[first].at) else None)
    decreases |pushes|
  {
    if pushes == [] {
      assert q.lines + LinesOf(pushes) == q.lines;
    } else {
      var n := |pushes| - 1;
      var front, last := pushes[..n], pushes[n];
      var first := q.capacity - |q.lines|;
      GapStartsAtItsFirstDrop(q, front);
      assert LinesOf(pushes) == LinesOf(front) + [last.line];
      Associate(q.lines, LinesOf(front), [last.line]);
      OverflowedNext(PushAll(q, front), q.lines + LinesOf(front),
                     if first < n then Some(front[first].at) else None, last.line, last.at);
    }
  }

  /** And what is sent first is the notice: how many were dropped, and since when. */
  lemma NoticeGoesFirst<T>(q: Queue<T>)
    requires Valid(q) && q.dropped > 0
    ensures Waiting(q) == [Notice(q.dropped, q.gapOpened.value)] + AsEntries(q.lines)
  {
  }

  /** The buffer is sized for five batches, as far as the machine can count. */
  lemma BufferHoldsFiveBatches(max: nat)
    ensures PendingLines(max) == if 5 * max < 0x1_0000_0000_0000_0000 then 5 * max else 0xFFFF_FFFF_FFFF_FFFF
  {
  }
}
