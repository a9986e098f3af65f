/** The local shell's reader: whole UTF-8 sequences out of reads that are cut anywhere. */
module ShellReader {
  import opened Prelude
  import opened Utf8

  /** What one decoding step sends, and what it leaves for the next read. */
  datatype Taken = Taken(text: Bytes, rest: Bytes)

  function Take(buf: Bytes): Taken {
    match FromUtf8(buf)
    case Valid => Taken(buf, [])
    case Invalid(v, None) => Taken(buf[..v], buf[v..])
    case Invalid(v, Some(n)) => Taken(buf[..v], buf[v + n..])
  }

  /** All text sent so far, and the carry buffer. */
  datatype Stream = Stream(emitted: Bytes, carry: Bytes)

  function Feed(r: Stream, chunk: Bytes): Stream {
    var t := Take(r.carry + chunk);
    Stream(r.emitted + t.text, t.rest)
  }

  function FeedAll(r: Stream, chunks: seq<Bytes>): Stream
    decreases |chunks|
  {
    if chunks == [] then r else FeedAll(Feed(r, chunks[0]), chunks[1..])
  }

  function Flat(chunks: seq<Bytes>): Bytes {
    if chunks == [] then [] else chunks[0] + Flat(chunks[1..])
  }

  // ---- The loop -----------------------------------------------------------------------------

  datatype ReadResult = Data(chunk: Bytes) | Interrupted | Failed

  /** The data of a run of reads up to the end of input or the first error that is not an interruption. */
  function Chunks(results: seq<ReadResult>): seq<Bytes> {
    if results == [] then [] else
    match results[0]
    case Data(c) => if c == [] then [] else [c] + Chunks(results[1..])
    case Interrupted => Chunks(results[1..])
    case Failed => []
  }

  class Reader {
    var carry: Bytes

    constructor ()
      ensures carry == []
    {
      carry := [];
    }

    method TakeComplete() returns (text: Bytes)
      modifies this
      ensures Taken(text, carry) == Take(old(carry))
    {
      var verdict := FromUtf8(carry);
      if verdict.Valid? {
        text := carry;
        carry := [];
      } else {
        var valid := verdict.validUpTo;
        text := carry[..valid];
        carry := match verdict.errorLen
                 case None => carry[valid..]
                 case Some(len) => carry[valid + len..];
      }
    }

    /**
      The reader's thread. The receiver takes `accepts` messages and is then gone. One message goes
      out for each read that completes some text, nothing empty is sent, everything sent is
      well-formed, and unless the receiver went away what was sent is all that the reads decode to.
    */
    method Forward(results: seq<ReadResult>, accepts: nat) returns (sent: seq<Bytes>)
      requires carry == []
      modifies this
      ensures sent == AtMost(Messages(Chunks(results)), accepts)
      ensures forall t <- sent :: t != [] && WellFormed(t)
      ensures Flat(sent) <= FeedAll(Stream([], []), Chunks(results)).emitted
      ensures |sent| < accepts ==> Stream(Flat(sent), carry) == FeedAll(Stream([], []), Chunks(results))
    {
      sent := ReadAll(results, accepts);
      WhatWasSent(results, accepts, sent, carry);
    }

    method ReadAll(results: seq<ReadResult>, accepts: nat) returns (sent: seq<Bytes>)
      requires carry == []
      modifies this
      ensures Through(results, accepts, sent, carry)
    {
      sent := [];
      var i := 0;
      ghost var done: seq<Bytes> := [];
      Starts(results);
      while i < |results|
        invariant 0 <= i <= |results| && |sent| <= accepts
        invariant Chunks(results) == done + Chunks(results[i..])
        invariant sent == Messages(done) && carry == Carried(done)
      {
        var read := results[i];
        NextRead(results, i);
        if read.Failed? || read == Data([]) {
          break;
        }
        if read.Data? {
          var text := Extend(read.chunk);
          MessagesThen(done, read.chunk);
          Associate(done, [read.chunk], Chunks(results[i + 1..]));
          if text != [] {
            if |sent| == accepts {
              ReceiverLeft(done, read.chunk, Chunks(results[i + 1..]));
              return;
            }
            sent := sent + [text];
          }
          done := done + [read.chunk];
        }
        i := i + 1;
      }
      assert Chunks(results[i..]) == [] && done + [] == done;
    }

    method Extend(chunk: Bytes) returns (text: Bytes)
      modifies this
      ensures Taken(text, carry) == Take(old(carry) + chunk)
    {
      carry := carry + chunk;
      text := TakeComplete();
    }
  }

  /** What is carried after some reads. */
  function Carried(chunks: seq<Bytes>): Bytes {
    if chunks == [] then [] else Take(Carried(chunks[..|chunks| - 1]) + chunks[|chunks| - 1]).rest
  }

  /** One message for each read that completes some text, with that text. */
  function Messages(chunks: seq<Bytes>): seq<Bytes> {
    if chunks == [] then []
    else
      var text := Take(Carried(chunks[..|chunks| - 1]) + chunks[|chunks| - 1]).text;
      Messages(chunks[..|chunks| - 1]) + if text == [] then [] else [text]
  }

  lemma MessagesThen(chunks: seq<Bytes>, c: Bytes)
    ensures var taken := Take(Carried(chunks) + c);
            && Carried(chunks + [c]) == taken.rest
            && Messages(chunks + [c]) == Messages(chunks) + if taken.text == [] then [] else [taken.text]
  {
    assert (chunks + [c])[..|chunks + [c]| - 1] == chunks;
  }

  lemma LastReadAddsMessages(chunks: seq<Bytes>)
    requires chunks != []
    ensures Messages(chunks[..|chunks| - 1]) <= Messages(chunks)
  {
  }

  lemma {:induction false} MessagesGrow(chunks: seq<Bytes>, k: nat)
    requires k <= |chunks|
    ensures Messages(chunks[..k]) <= Messages(chunks)
    decreases |chunks|
  {
    if k == |chunks| {
      assert chunks[..k] == chunks;
    } else {
      var front := chunks[..|chunks| - 1];
      assert front[..k] == chunks[..k];
      MessagesGrow(front, k);
      LastReadAddsMessages(chunks);
    }
  }

  /** A receiver that has left before a message it is sent has had all that went before. */
  lemma ReceiverLeft(done: seq<Bytes>, c: Bytes, later: seq<Bytes>)
    requires Take(Carried(done) + c).text != []
    ensures AtMost(Messages(done + [c] + later), |Messages(done)|) == Messages(done)
  {
    var chunks := done + [c] + later;
    assert chunks[..|done| + 1] == done + [c];
    MessagesThen(done, c);
    MessagesGrow(chunks, |done| + 1);
  }

  /** No message is empty or cut inside a character, and together they are all that is emitted. */
  lemma {:induction false} MessagesAreTheText(chunks: seq<Bytes>)
    ensures forall t <- Messages(chunks) :: t != [] && WellFormed(t)
    ensures FeedAll(Stream([], []), chunks) == Stream(Flat(Messages(chunks)), Carried(chunks))
    decreases |chunks|
  {
    if chunks != [] {
      var front, last := chunks[..|chunks| - 1], chunks[|chunks| - 1];
      var text := Take(Carried(front) + last).text;
      assert chunks == front + [last];
      MessagesAreTheText(front);
      MessagesThen(front, last);
      FeedAllThen(Stream([], []), front, last);
      TakenIsWellFormed(Carried(front) + last);
      FlatAppend(Messages(front), text);
      assert Messages(front) + [] == Messages(front) && Flat(Messages(front)) + [] == Flat(Messages(front));
    }
  }

  /** Each read's text goes out with that read: after any number of reads nothing complete is held back. */
  lemma MessagesArePrompt(chunks: seq<Bytes>, k: nat)
    requires k <= |chunks|
    ensures Messages(chunks[..k]) <= Messages(chunks)
    ensures Flat(Messages(chunks[..k])) == FeedAll(Stream([], []), chunks[..k]).emitted
  {
    MessagesGrow(chunks, k);
    MessagesAreTheText(chunks[..k]);
  }

  /** The loop when it is left: as many messages went as there were, or as the receiver took. */
  ghost predicate Through(results: seq<ReadResult>, accepts: nat, sent: seq<Bytes>, carry: Bytes) {
    && sent == AtMost(Messages(Chunks(results)), accepts)
    && (|sent| < accepts ==> sent == Messages(Chunks(results)) && carry == Carried(Chunks(results)))
  }

  lemma Starts(results: seq<ReadResult>)
    ensures Chunks(results) == [] + Chunks(results[0..])
  {
    assert results[0..] == results;
  }

  lemma WhatWasSent(results: seq<ReadResult>, accepts: nat, sent: seq<Bytes>, carry: Bytes)
    requires Through(results, accepts, sent, carry)
    ensures forall t <- sent :: t != [] && WellFormed(t)
    ensures Flat(sent) <= FeedAll(Stream([], []), Chunks(results)).emitted
    ensures |sent| < accepts ==> Stream(Flat(sent), carry) == FeedAll(Stream([], []), Chunks(results))
  {
    var all := Messages(Chunks(results));
    MessagesAreTheText(Chunks(results));
    assert sent == all[..|sent|];
    FlatConcat(sent, all[|sent|..]);
    CutAt(all, |sent|);
    forall t <- sent ensures t != [] && WellFormed(t) {
      assert t in all;
    }
  }

  lemma {:induction false} FlatConcat(a: seq<Bytes>, b: seq<Bytes>)
    ensures Flat(a + b) == Flat(a) + Flat(b)
    decreases |a|
  {
    if a == [] {
      assert a + b == b;
    } else {
      assert (a + b)[1..] == a[1..] + b;
      FlatConcat(a[1..], b);
    }
  }

  /** Interrupted reads make no difference, and nothing is read after the end or a failure. */
  lemma {:induction false} ReadsUpToTheEnd(results: seq<ReadResult>, more: seq<ReadResult>)
    requires forall r <- results :: r.Interrupted? || (r.Data? && r.chunk != [])
    ensures Chunks(results + more) == Chunks(results) + Chunks(more)
    ensures Chunks([Data([])] + more) == [] && Chunks([Failed] + more) == []
    ensures (forall r <- results :: r.Data?) ==>
              |Chunks(results)| == |results| && forall i :: 0 <= i < |results| ==> Data(Chunks(results)[i]) == results[i]
    ensures (forall r <- results :: r.Interrupted?) ==> Chunks(results) == []
    decreases |results|
  {
    if results == [] {
      assert results + more == more;
    } else {
      assert results[0] in results;
      assert (results + more)[1..] == results[1..] + more;
      ReadsUpToTheEnd(results[1..], more);
      assert forall i :: 0 < i < |results| ==> results[i] == results[1..][i - 1];
    }
  }

  /** The first `n` of a list, or all of it. */
  function AtMost<T>(s: seq<T>, n: nat): seq<T> {
    if |s| <= n then s else s[..n]
  }

  /** What one read contributes to the run of reads from it on. */
  lemma NextRead(results: seq<ReadResult>, i: nat)
    requires i < |results|
    ensures var now, later := Chunks(results[i..]), Chunks(results[i + 1..]);
            match results[i]
            case Interrupted => now == later
            case Failed => now == []
            case Data(c) => now == if c == [] then [] else [c] + later
  {
    assert results[i..][1..] == results[i + 1..];
  }

  lemma {:induction false} FlatAppend(chunks: seq<Bytes>, c: Bytes)
    ensures Flat(chunks + [c]) == Flat(chunks) + c
  {
    if chunks == [] {
      assert chunks + [c] == [c];
    } else {
      assert (chunks + [c])[1..] == chunks[1..] + [c];
      FlatAppend(chunks[1..], c);
    }
  }

  // ---- One step -----------------------------------------------------------------------------

  lemma TakenIsWellFormed(buf: Bytes)
    ensures WellFormed(Take(buf).text)
  {
    if FromUtf8(buf).Invalid? {
      ValidPartIsWellFormed(buf);
    }
  }

  lemma {:induction false} ErrorsOnlyGrow(s: Bytes, z: Bytes)
    ensures Errors(s) <= Errors(s + z)
  {
    if s != [] && !HeadOf(s).Short? {
      HeadIsStable(s, z);
      var n := HeadOf(s).len;
      ErrorsOnlyGrow(s[n..], z);
      assert (s + z)[n..] == s[n..] + z;
    }
  }

  /** Whether a decoding step skips an ill-formed subpart. */
  function Skips(buf: Bytes): nat {
    if FromUtf8(buf).Invalid? && FromUtf8(buf).errorLen.Some? then 1 else 0
  }

  /** A step cuts the buffer into text, at most one ill-formed subpart, and the rest. */
  lemma TakeSplits(buf: Bytes) returns (tail: Bytes)
    ensures var t := Take(buf);
            && buf == t.text + tail && WellFormed(t.text)
            && (Skips(buf) == 0 ==> t.rest == tail && (tail == [] || HeadOf(tail).Short?))
            && (Skips(buf) == 1 ==> tail != [] && HeadOf(tail).Ill? && t.rest == tail[HeadOf(tail).len..])
  {
    match FromUtf8(buf)
    case Valid =>
      tail := [];
    case Invalid(v, e) =>
      ValidPartIsWellFormed(buf);
      tail := buf[v..];
      if e.Some? {
        assert buf[v + e.value..] == tail[e.value..];
      }
  }

  lemma TailKeepsMeaning(tail: Bytes, z: Bytes)
    requires tail != [] && HeadOf(tail).Ill?
    ensures var rest := tail[HeadOf(tail).len..];
            Decoded(tail + z) == Decoded(rest + z) && Errors(tail + z) == 1 + Errors(rest + z)
  {
    HeadIsStable(tail, z);
    assert (tail + z)[HeadOf(tail).len..] == tail[HeadOf(tail).len..] + z;
  }

  /** A step moves text out and skips at most one subpart; what any continuation decodes to stays. */
  lemma TakeKeepsMeaning(buf: Bytes, z: Bytes)
    ensures var t := Take(buf);
            && t.text + Decoded(t.rest + z) == Decoded(buf + z)
            && Errors(buf + z) == Errors(t.rest + z) + Skips(buf)
  {
    var tail := TakeSplits(buf);
    var text := Take(buf).text;
    if Skips(buf) == 1 {
      TailKeepsMeaning(tail, z);
    }
    DecodedOfConcat(text, tail + z);
    ErrorsOfConcat(text, tail + z);
    Associate(text, tail, z);
  }

  /** A step that has nothing to skip keeps every byte, and only the start of one character back. */
  lemma TakeWithoutErrors(buf: Bytes)
    requires Errors(buf) == 0
    ensures var t := Take(buf);
            && t.text + t.rest == buf && |t.rest| <= 3
            && (t.rest == [] || HeadOf(t.rest).Short?)
  {
    var tail := TakeSplits(buf);
    TakeKeepsMeaning(buf, []);
    assert buf + [] == buf;
  }

  lemma Regroup(a: Bytes, b: Bytes, c: Bytes, d: Bytes)
    ensures a + (b + c) + d == (a + b) + (c + d)
  {
  }

  // ---- Every way of cutting the input ---------------------------------------------------------

  lemma {:induction false} FeedAllKeepsMeaning(r: Stream, chunks: seq<Bytes>, z: Bytes)
    ensures var f := FeedAll(r, chunks);
            f.emitted + Decoded(f.carry + z) == r.emitted + Decoded(r.carry + Flat(chunks) + z)
    decreases |chunks|
  {
    if chunks == [] {
      assert r.carry + Flat(chunks) == r.carry;
    } else {
      var c, more := chunks[0], chunks[1..];
      var t := Take(r.carry + c);
      var later := Flat(more) + z;
      FeedAllKeepsMeaning(Feed(r, c), more, z);
      Associate(t.rest, Flat(more), z);
      TakeKeepsMeaning(r.carry + c, later);
      Associate(r.emitted, t.text, Decoded(t.rest + later));
      Regroup(r.carry, c, Flat(more), z);
    }
  }

  /** The reader is independent of how its input is cut: any continuation decodes as it would have. */
  lemma ChunkIndependent(chunks: seq<Bytes>, z: Bytes)
    ensures var f := FeedAll(Stream([], []), chunks);
            f.emitted + Decoded(f.carry + z) == Decoded(Flat(chunks) + z)
  {
    FeedAllKeepsMeaning(Stream([], []), chunks, z);
    assert [] + Flat(chunks) == Flat(chunks);
    var meaning := Decoded(Flat(chunks) + z);
    assert [] + meaning == meaning;
  }

  lemma {:induction false} NothingHeldBack(r: Stream, chunks: seq<Bytes>)
    requires Errors(r.carry + Flat(chunks)) == 0
    requires r.carry == [] || HeadOf(r.carry).Short?
    ensures var f := FeedAll(r, chunks);
            && f.emitted + f.carry == r.emitted + (r.carry + Flat(chunks))
            && (f.carry == [] || HeadOf(f.carry).Short?)
    decreases |chunks|
  {
    if chunks == [] {
      assert r.carry + Flat(chunks) == r.carry;
    } else {
      var c, more := chunks[0], chunks[1..];
      var buf := r.carry + c;
      var t := Take(buf);
      Associate(r.carry, c, Flat(more));
      ErrorsOnlyGrow(buf, Flat(more));
      TakeWithoutErrors(buf);
      TakeKeepsMeaning(buf, Flat(more));
      NothingHeldBack(Feed(r, c), more);
      Associate(r.emitted, t.text, t.rest + Flat(more));
      Associate(t.text, t.rest, Flat(more));
    }
  }

  /**
    Input without ill-formed subparts comes out byte for byte, however it was cut: only the
    beginning of one character, at most three bytes, is ever waiting, and none of well-formed input.
  */
  lemma GoodInputComesOutWhole(chunks: seq<Bytes>)
    requires Errors(Flat(chunks)) == 0
    ensures var f := FeedAll(Stream([], []), chunks);
            && f.emitted + f.carry == Flat(chunks)
            && |f.carry| <= 3
            && (WellFormed(Flat(chunks)) <==> f.carry == [])
  {
    assert [] + Flat(chunks) == Flat(chunks);
    NothingHeldBack(Stream([], []), chunks);
    var f := FeedAll(Stream([], []), chunks);
    EmittedIsWellFormed(Stream([], []), chunks);
    VerdictOfConcat(f.emitted, f.carry);
  }

  lemma {:induction false} EmittedIsWellFormed(r: Stream, chunks: seq<Bytes>)
    requires WellFormed(r.emitted)
    ensures WellFormed(FeedAll(r, chunks).emitted)
    decreases |chunks|
  {
    if chunks != [] {
      TakenIsWellFormed(r.carry + chunks[0]);
      VerdictOfConcat(r.emitted, Take(r.carry + chunks[0]).text);
      EmittedIsWellFormed(Feed(r, chunks[0]), chunks[1..]);
    }
  }

  // ---- What ill-formed input costs --------------------------------------------------------------

  /** Ill-formed subparts with a whole character somewhere behind them. */
  function Blocking(s: Bytes): nat {
    if s == [] then 0 else
    match HeadOf(s)
    case Whole(n) => Blocking(s[n..])
    case Ill(n) => Blocking(s[n..]) + if Decoded(s[n..]) == [] then 0 else 1
    case Short => 0
  }

  /** How many ill-formed subparts a run of reads has skipped: one a read, of those that have arrived. */
  function Skipped(chunks: seq<Bytes>): nat {
    if chunks == [] then 0
    else
      var n := |chunks| - 1;
      Min(Skipped(chunks[..n]) + 1, Errors(Flat(chunks)))
  }

  /** The subparts that arrived with the first `k` reads, and one for each read after them. */
  function Chances(chunks: seq<Bytes>, k: nat): nat
    requires k <= |chunks|
  {
    Errors(Flat(chunks[..k])) + (|chunks| - k)
  }

  lemma ChancesOfFront(chunks: seq<Bytes>, k: nat)
    requires k < |chunks|
    ensures Chances(chunks, k) == Chances(chunks[..|chunks| - 1], k) + 1
  {
    assert chunks[..|chunks| - 1][..k] == chunks[..k];
  }

  /** So `n` subparts have been skipped exactly when every cut of the reads leaves `n` chances. */
  lemma {:induction false} SkippedAtLeast(chunks: seq<Bytes>, n: nat)
    ensures Skipped(chunks) >= n <==> forall k :: 0 <= k <= |chunks| ==> Chances(chunks, k) >= n
    decreases |chunks|
  {
    assert chunks[..|chunks|] == chunks;
    assert Chances(chunks, |chunks|) == Errors(Flat(chunks));
    if chunks != [] {
      var m := |chunks| - 1;
      var front := chunks[..m];
      if n > 0 {
        SkippedAtLeast(front, n - 1);
      }
      forall k | 0 <= k <= m ensures Chances(chunks, k) == Chances(front, k) + 1 {
        ChancesOfFront(chunks, k);
      }
      if n > 0 && Skipped(front) < n - 1 {
        var k :| 0 <= k <= m && Chances(front, k) < n - 1;
        assert Chances(chunks, k) < n;
      }
    }
  }

  lemma {:induction false} FeedAllThen(r: Stream, chunks: seq<Bytes>, c: Bytes)
    ensures FeedAll(r, chunks + [c]) == Feed(FeedAll(r, chunks), c)
    decreases |chunks|
  {
    if chunks == [] {
      assert chunks + [c] == [c];
    } else {
      assert (chunks + [c])[1..] == chunks[1..] + [c];
      FeedAllThen(Feed(r, chunks[0]), chunks[1..], c);
    }
  }

  lemma {:induction false} BlockingOfText(s: Bytes, t: Bytes)
    requires WellFormed(s)
    ensures Blocking(s + t) == Blocking(t)
  {
    if s == [] {
      assert s + t == t;
    } else {
      var n := HeadOf(s).len;
      HeadIsStable(s, t);
      assert (s + t)[n..] == s[n..] + t;
      BlockingOfText(s[n..], t);
    }
  }

  lemma {:induction false} NothingBehindNothing(s: Bytes)
    requires Decoded(s) == []
    ensures Blocking(s) == 0
  {
    if s != [] && HeadOf(s).Ill? {
      NothingBehindNothing(s[HeadOf(s).len..]);
    }
  }

  lemma TailUnblocks(tail: Bytes, z: Bytes)
    requires tail != [] && HeadOf(tail).Ill?
    ensures var rest := tail[HeadOf(tail).len..];
            Blocking(tail + z) == Blocking(rest + z) + if Decoded(rest + z) == [] then 0 else 1
  {
    HeadIsStable(tail, z);
    assert (tail + z)[HeadOf(tail).len..] == tail[HeadOf(tail).len..] + z;
  }

  /** A step that skips takes one blocking subpart away, if there is one. */
  lemma TakeUnblocks(buf: Bytes, z: Bytes)
    ensures var rest := Take(buf).rest;
            Blocking(buf + z)
            == Blocking(rest + z) + if Skips(buf) == 0 || Decoded(rest + z) == [] then 0 else 1
  {
    var tail := TakeSplits(buf);
    BlockingOfText(Take(buf).text, tail + z);
    Associate(Take(buf).text, tail, z);
    if Skips(buf) == 1 {
      TailUnblocks(tail, z);
    }
  }

  function Minus(a: nat, b: nat): nat {
    if b <= a then a - b else 0
  }

  /**
    Each read skips at most one ill-formed subpart, and exactly `Skipped` of them have gone after
    a run of reads; the others are still in the carry buffer, with the good text behind them.
  */
  lemma {:induction false} SkippingLagsBehind(chunks: seq<Bytes>, z: Bytes)
    ensures var carry := FeedAll(Stream([], []), chunks).carry;
            && Errors(carry + z) + Skipped(chunks) == Errors(Flat(chunks) + z)
            && Blocking(carry + z) == Minus(Blocking(Flat(chunks) + z), Skipped(chunks))
    decreases |chunks|
  {
    if chunks != [] {
      var m := |chunks| - 1;
      var front, c := chunks[..m], chunks[m];
      assert chunks == front + [c];
      FeedAllThen(Stream([], []), front, c);
      FlatAppend(front, c);
      var carry := FeedAll(Stream([], []), front).carry;
      var buf := carry + c;
      SkippingLagsBehind(front, c);
      SkippingLagsBehind(front, c + z);
      Associate(carry, c, z);
      Associate(Flat(front), c, z);
      TakeKeepsMeaning(buf, z);
      TakeUnblocks(buf, z);
      SkipsExactlyWhenIll(buf);
      NothingBehind(Take(buf).rest + z);
    }
  }

  lemma NothingBehind(s: Bytes)
    ensures Decoded(s) == [] ==> Blocking(s) == 0
  {
    if Decoded(s) == [] {
      NothingBehindNothing(s);
    }
  }

  lemma {:induction false} SkipsExactlyWhenIll(buf: Bytes)
    ensures Skips(buf) == Min(1, Errors(buf))
  {
    if buf != [] && HeadOf(buf).Whole? {
      SkipsExactlyWhenIll(buf[HeadOf(buf).len..]);
    }
  }

  lemma {:induction false} BlockingAreIll(s: Bytes)
    ensures Blocking(s) <= Errors(s)
  {
    if s != [] && !HeadOf(s).Short? {
      BlockingAreIll(s[HeadOf(s).len..]);
    }
  }

  /** What a step leaves behind decodes to nothing exactly when nothing blocked in its buffer. */
  lemma LeavesTextExactlyWhenBlocked(buf: Bytes)
    ensures Decoded(Take(buf).rest) == [] <==> Blocking(buf) == 0
  {
    var rest := Take(buf).rest;
    assert buf + [] == buf && rest + [] == rest;
    TakeUnblocks(buf, []);
    NothingBehind(rest);
    SkipsExactlyWhenIll(buf);
    BlockingAreIll(buf);
    var tail := TakeSplits(buf);
  }

  /** A further read leaves text in the carry exactly when the reads before it skipped too little. */
  lemma LastReadLosesText(front: seq<Bytes>, c: Bytes)
    ensures Decoded(FeedAll(Stream([], []), front + [c]).carry) == []
            <==> Skipped(front) >= Blocking(Flat(front + [c]))
  {
    FeedAllThen(Stream([], []), front, c);
    FlatAppend(front, c);
    SkippingLagsBehind(front, c);
    LeavesTextExactlyWhenBlocked(FeedAll(Stream([], []), front).carry + c);
  }

  /**
    When the pty closes, what is in the carry is never sent. Nothing is lost exactly when the
    reads before the last have, wherever they are cut, a chance for every ill-formed subpart that
    has text behind it.
  */
  lemma EndOfInputLosesTheCarry(chunks: seq<Bytes>)
    ensures FeedAll(Stream([], []), chunks).emitted == Decoded(Flat(chunks))
            <==> chunks == []
                 || var front := chunks[..|chunks| - 1];
                    forall k :: 0 <= k <= |front| ==> Chances(front, k) >= Blocking(Flat(chunks))
  {
    var f := FeedAll(Stream([], []), chunks);
    ChunkIndependent(chunks, []);
    assert f.carry + [] == f.carry && Flat(chunks) + [] == Flat(chunks);
    if chunks != [] {
      var front := chunks[..|chunks| - 1];
      assert chunks == front + [chunks[|chunks| - 1]];
      LastReadLosesText(front, chunks[|chunks| - 1]);
      SkippedAtLeast(front, Blocking(Flat(chunks)));
    }
  }

  /** One stray byte in the last read is enough. */
  lemma StrayByte()
    ensures FeedAll(Stream([], []), [[0xFF, 0x61]]) == Stream([], [0x61])
    ensures Decoded([0xFF, 0x61]) == [0x61]
  {
    var s: Bytes := [0xFF, 0x61];
    assert HeadOf(s) == Ill(1);
    assert s[1..] == [0x61];
    assert [] + s == s;
    assert Decoded([0x61]) == [0x61] + Decoded([]);
  }
}
