/** Questions the agent asks its controller, and the answers matched to them. */
module IpcQuestions {
  import opened Prelude

  type Question = nat
  type Body = string

  // ---- Request ids ----------------------------------------------------------------------------

  function Digit(d: nat): char
    requires d < 10
  {
    '0' + d as char
  }

  function Decimal(n: nat): string {
    if n < 10 then [Digit(n)] else Decimal(n / 10) + [Digit(n % 10)]
  }

  function RequestId(n: nat): string {
    "a" + Decimal(n)
  }

  lemma {:induction false} DecimalIsInjective(m: nat, n: nat)
    requires Decimal(m) == Decimal(n)
    ensures m == n
  {
    var s, t := Decimal(m), Decimal(n);
    assert s[|s| - 1] == Digit(m % 10) && t[|t| - 1] == Digit(n % 10);
    DecimalLength(m);
    DecimalLength(n);
    if m >= 10 && n >= 10 {
      assert s[..|s| - 1] == Decimal(m / 10) && t[..|t| - 1] == Decimal(n / 10);
      DecimalIsInjective(m / 10, n / 10);
    }
  }

  lemma {:induction false} DecimalLength(n: nat)
    ensures |Decimal(n)| >= 1 && (|Decimal(n)| == 1 <==> n < 10)
  {
    if n >= 10 {
      DecimalLength(n / 10);
    }
  }

  lemma RequestIdIsInjective(m: nat, n: nat)
    ensures RequestId(m) == RequestId(n) <==> m == n
  {
    if RequestId(m) == RequestId(n) {
      assert Decimal(m) == RequestId(m)[1..] && Decimal(n) == RequestId(n)[1..];
      DecimalIsInjective(m, n);
    }
  }

  // ---- One controller connection --------------------------------------------------------------

  datatype Answer = Reply(id: string, body: Body) | NoAnswer

  /**
    `queue` is the channel to the connection, `outstanding` what it was asked and has not answered.
    `asked`, `sentAs` and `answers` are the askers' side: what was asked, under which id it went
    out, and how each `ask` returned.
  */
  datatype Link = Link(
    open: bool,
    queue: seq<Question>,
    outstanding: map<string, Question>,
    nextId: nat,
    asked: set<Question>,
    sentAs: map<Question, string>,
    answers: map<Question, Answer>)

  const OPENED := Link(true, [], map[], 0, {}, map[], map[])

  datatype Event =
    | Ask(q: Question)
    | Forward                          // pump takes the next question and writes the request
    | Respond(id: string, body: Body)  // a response frame arrives
    | Expire(q: Question)              // an asker's deadline passes
    | Close                            // pump returns, for whatever reason

  /** Resolve a question unless its asker has already given up. */
  function Resolve(answers: map<Question, Answer>, q: Question, a: Answer): map<Question, Answer> {
    if q in answers then answers else answers[q := a]
  }

  /** Dropping a waiting question's reply channel makes its `ask` return nothing. */
  function ResolveAll(l: Link): map<Question, Answer> {
    map q | q in l.answers.Keys + (set x | x in l.queue) + l.outstanding.Values
      :: if q in l.answers then l.answers[q] else NoAnswer
  }

  function Step(l: Link, ev: Event): Link {
    match ev
    case Ask(q) =>
      if q in l.asked then l
      else if l.open then l.(asked := l.asked + {q}, queue := l.queue + [q])
      else l.(asked := l.asked + {q}, answers := Resolve(l.answers, q, NoAnswer))
    case Forward =>
      if l.open && l.queue != [] then
        var id := RequestId(l.nextId + 1);
        l.(queue := l.queue[1..], nextId := l.nextId + 1,
           outstanding := l.outstanding[id := l.queue[0]], sentAs := l.sentAs[l.queue[0] := id])
      else l
    case Respond(id, body) =>
      if l.open && id in l.outstanding then
        l.(outstanding := l.outstanding - {id},
           answers := Resolve(l.answers, l.outstanding[id], Reply(id, body)))
      else l
    case Expire(q) =>
      if q in l.asked then l.(answers := Resolve(l.answers, q, NoAnswer)) else l
    case Close =>
      if l.open then l.(open := false, queue := [], outstanding := map[], answers := ResolveAll(l)) else l
  }

  function Run(l: Link, evs: seq<Event>): Link {
    if evs == [] then l else Step(Run(l, evs[..|evs| - 1]), evs[|evs| - 1])
  }

  /** The connection's loop and the askers waiting on it. */
  class Connection {
    var open: bool
    var queue: seq<Question>
    var outstanding: map<string, Question>
    var nextId: nat
    var asked: set<Question>
    var sentAs: map<Question, string>
    var answers: map<Question, Answer>

    function Value(): Link
      reads this
    {
      Link(open, queue, outstanding, nextId, asked, sentAs, answers)
    }

    constructor ()
      ensures Value() == OPENED
    {
      open, queue, outstanding, nextId := true, [], map[], 0;
      asked, sentAs, answers := {}, map[], map[];
    }

    /** `ask`: into the channel, or no answer at once when its receiver is gone. */
    method PutQuestion(q: Question)
      modifies this
      ensures Value() == Step(old(Value()), Ask(q))
    {
      if q in asked {
        return;
      }
      asked := asked + {q};
      if open {
        queue := queue + [q];
      } else if q !in answers {
        answers := answers[q := NoAnswer];
      }
    }

    method ForwardNext()
      requires open && queue != []
      modifies this
      ensures Value() == Step(old(Value()), Forward)
    {
      var q := queue[0];
      queue := queue[1..];
      nextId := nextId + 1;
      var id := RequestId(nextId);
      outstanding := outstanding[id := q];
      sentAs := sentAs[q := id];
    }

    method HandleResponse(id: string, body: Body)
      requires open
      modifies this
      ensures Value() == Step(old(Value()), Respond(id, body))
    {
      if id !in outstanding {
        return;
      }
      var q := outstanding[id];
      outstanding := outstanding - {id};
      if q !in answers {
        answers := answers[q := Reply(id, body)];
      }
    }

    method PassDeadline(q: Question)
      requires q in asked
      modifies this`answers
      ensures Value() == Step(old(Value()), Expire(q))
    {
      if q !in answers {
        answers := answers[q := NoAnswer];
      }
    }

    /** The connection ends; every reply channel it still holds is dropped. */
    method End()
      requires open
      modifies this
      ensures Value() == Step(old(Value()), Close)
    {
      answers := ResolveAll(Value());
      open, queue, outstanding := false, [], map[];
    }
  }

  // ---- Invariant ------------------------------------------------------------------------------

  ghost predicate HandedOut(n: nat, id: string) {
    exists k :: 1 <= k <= n && id == RequestId(k)
  }

  predicate OneToOne(sentAs: map<Question, string>) {
    forall q <- sentAs, r <- sentAs :: sentAs[q] == sentAs[r] ==> q == r
  }

  /** Whatever is outstanding is so under the id it was sent under. */
  predicate AwaitedUnder(outstanding: map<string, Question>, sentAs: map<Question, string>) {
    forall id <- outstanding :: outstanding[id] in sentAs && sentAs[outstanding[id]] == id
  }

  /** Ids in use are those handed out so far, each to one question. */
  ghost predicate IdsAreOwned(l: Link) {
    && (forall q <- l.sentAs :: HandedOut(l.nextId, l.sentAs[q]))
    && OneToOne(l.sentAs) && AwaitedUnder(l.outstanding, l.sentAs)
  }

  ghost predicate QueueIsFresh(l: Link) {
    && (forall q <- l.queue :: q in l.asked && q !in l.sentAs)
    && (forall i, j :: 0 <= i < j < |l.queue| ==> l.queue[i] != l.queue[j])
    && l.sentAs.Keys <= l.asked && l.answers.Keys <= l.asked
  }

  /** Whoever still waits is in the channel or outstanding, and nobody waits on a closed connection. */
  ghost predicate WaitersAreHeld(l: Link) {
    && (forall q <- l.asked :: q !in l.answers ==> l.open && (q in l.queue || q in l.outstanding.Values))
    && (!l.open ==> l.queue == [] && l.outstanding == map[])
  }

  ghost predicate Inv(l: Link) {
    && IdsAreOwned(l) && QueueIsFresh(l) && WaitersAreHeld(l)
    && (forall q <- l.answers :: l.answers[q].Reply? ==>
          q in l.sentAs && l.sentAs[q] == l.answers[q].id && l.answers[q].id !in l.outstanding)
  }

  lemma NextIdIsNew(n: nat, id: string)
    requires HandedOut(n, id)
    ensures HandedOut(n + 1, id) && id != RequestId(n + 1)
  {
    var k :| 1 <= k <= n && id == RequestId(k);
    RequestIdIsInjective(k, n + 1);
    assert id == RequestId(k);
  }

  lemma NextIdIsNobodys(l: Link)
    requires IdsAreOwned(l)
    ensures forall q <- l.sentAs :: HandedOut(l.nextId + 1, l.sentAs[q]) && l.sentAs[q] != RequestId(l.nextId + 1)
  {
    forall q <- l.sentAs ensures HandedOut(l.nextId + 1, l.sentAs[q]) && l.sentAs[q] != RequestId(l.nextId + 1) {
      NextIdIsNew(l.nextId, l.sentAs[q]);
    }
  }

  lemma SentUnderNewId(outstanding: map<string, Question>, sentAs: map<Question, string>, q0: Question, id: string)
    requires OneToOne(sentAs) && AwaitedUnder(outstanding, sentAs)
    requires q0 !in sentAs && id !in sentAs.Values
    ensures OneToOne(sentAs[q0 := id]) && AwaitedUnder(outstanding[id := q0], sentAs[q0 := id])
  {
    assert forall q <- sentAs :: sentAs[q] in sentAs.Values;
  }

  lemma ForwardKeepsIds(l: Link)
    requires IdsAreOwned(l) && l.open && l.queue != [] && l.queue[0] !in l.sentAs
    ensures var l' := Step(l, Forward);
            IdsAreOwned(l') && RequestId(l.nextId + 1) !in l.sentAs.Values
  {
    NextIdIsNobodys(l);
    SentUnderNewId(l.outstanding, l.sentAs, l.queue[0], RequestId(l.nextId + 1));
    assert HandedOut(l.nextId + 1, RequestId(l.nextId + 1));
  }

  lemma ForwardKeepsInv(l: Link)
    requires Inv(l) && l.open && l.queue != []
    ensures Inv(Step(l, Forward))
  {
    var l' := Step(l, Forward);
    assert l.queue[0] in l.queue;
    ForwardKeepsIds(l);
    var id := RequestId(l.nextId + 1);
    assert l.queue == [l.queue[0]] + l.queue[1..];
    forall q <- l'.asked | q !in l'.answers ensures q in l'.queue || q in l'.outstanding.Values {
      if q == l.queue[0] {
        assert l'.outstanding[id] == q;
      } else if q in l.outstanding.Values {
        var i :| i in l.outstanding && l.outstanding[i] == q;
        assert l.sentAs[q] == i;
        assert l'.outstanding[i] == q;
      }
    }
  }

  lemma RespondKeepsWaiters(l: Link, id: string, body: Body)
    requires WaitersAreHeld(l) && l.open && id in l.outstanding
    ensures WaitersAreHeld(Step(l, Respond(id, body)))
  {
    var l' := Step(l, Respond(id, body));
    forall q <- l'.asked | q !in l'.answers ensures q in l'.queue || q in l'.outstanding.Values {
      if q in l.outstanding.Values {
        var i :| i in l.outstanding && l.outstanding[i] == q;
        assert i != id;
        assert l'.outstanding[i] == q;
      }
    }
  }

  lemma RespondKeepsInv(l: Link, id: string, body: Body)
    requires Inv(l) && l.open && id in l.outstanding
    ensures Inv(Step(l, Respond(id, body)))
  {
    RespondKeepsWaiters(l, id, body);
  }

  lemma StepKeepsInv(l: Link, ev: Event)
    requires Inv(l)
    ensures Inv(Step(l, ev))
  {
    match ev
    case Ask(q) =>
    case Forward =>
      if l.open && l.queue != [] {
        ForwardKeepsInv(l);
      }
    case Respond(id, body) =>
      if l.open && id in l.outstanding {
        RespondKeepsInv(l, id, body);
      }
    case Expire(q) =>
    case Close =>
  }

  // ---- What askers are promised -----------------------------------------------------------------

  /** An answer once given never changes, and a sent question keeps its id. */
  ghost predicate Keeps(l: Link, l': Link) {
    && (forall q <- l.answers :: q in l'.answers && l'.answers[q] == l.answers[q])
    && (forall q <- l.sentAs :: q in l'.sentAs && l'.sentAs[q] == l.sentAs[q])
  }

  lemma {:induction false} ReachedInv(evs: seq<Event>)
    ensures Inv(Run(OPENED, evs))
  {
    if evs != [] {
      ReachedInv(evs[..|evs| - 1]);
      StepKeepsInv(Run(OPENED, evs[..|evs| - 1]), evs[|evs| - 1]);
    }
  }

  lemma KeepsOn(l: Link, l': Link, ev: Event)
    requires Inv(l') && Keeps(l, l')
    ensures Keeps(l, Step(l', ev))
  {
    StepKeeps(l', ev);
  }

  lemma {:induction false} KeepsAlong(evs: seq<Event>, n: nat)
    requires n <= |evs|
    ensures Keeps(Run(OPENED, evs[..n]), Run(OPENED, evs))
  {
    if n == |evs| {
      assert evs[..n] == evs;
    } else {
      var front := evs[..|evs| - 1];
      assert front[..n] == evs[..n];
      KeepsAlong(front, n);
      ReachedInv(front);
      KeepsOn(Run(OPENED, evs[..n]), Run(OPENED, front), evs[|evs| - 1]);
    }
  }

  /**
    Under any interleaving: the invariant holds, so a reply carries the id its question went out
    under, and everything answered earlier is still answered the same way.
  */
  lemma OneAnswerEach(evs: seq<Event>, n: nat)
    requires n <= |evs|
    ensures Inv(Run(OPENED, evs)) && Keeps(Run(OPENED, evs[..n]), Run(OPENED, evs))
  {
    ReachedInv(evs);
    KeepsAlong(evs, n);
  }

  lemma StepKeeps(l: Link, ev: Event)
    requires Inv(l)
    ensures Keeps(l, Step(l, ev))
  {
    if ev.Forward? && l.open && l.queue != [] {
      assert l.queue[0] in l.queue;
    }
  }

  /** Every reply an asker got was a response frame with that id and body, received while its question was outstanding. */
  lemma {:induction false} RepliesWereReceived(evs: seq<Event>, q: Question)
    requires q in Run(OPENED, evs).answers && Run(OPENED, evs).answers[q].Reply?
    ensures var a := Run(OPENED, evs).answers[q];
            exists i :: 0 <= i < |evs| && evs[i] == Respond(a.id, a.body)
                        && a.id in Run(OPENED, evs[..i]).outstanding
                        && Run(OPENED, evs[..i]).outstanding[a.id] == q
  {
    var m := |evs| - 1;
    var before := Run(OPENED, evs[..m]);
    if q in before.answers {
      RepliesWereReceived(evs[..m], q);
      var a := before.answers[q];
      var i :| 0 <= i < m && evs[..m][i] == Respond(a.id, a.body)
               && a.id in Run(OPENED, evs[..m][..i]).outstanding
               && Run(OPENED, evs[..m][..i]).outstanding[a.id] == q;
      assert evs[..m][..i] == evs[..i];
      ReachedInv(evs[..m]);
      StepKeeps(before, evs[m]);
      assert evs[i] == Respond(a.id, a.body);
    } else {
      assert evs[m].Respond?;
    }
  }

  /** An id whose question is no longer outstanding is spent: no later frame with it changes anything. */
  lemma {:induction false} SpentIdsStaySpent(l: Link, evs: seq<Event>, q: Question, body: Body)
    requires Inv(l) && q in l.sentAs && l.sentAs[q] !in l.outstanding
    ensures var l' := Run(l, evs);
            && Inv(l') && q in l'.sentAs && l'.sentAs[q] == l.sentAs[q]
            && (l.sentAs[q] !in l'.outstanding || !l'.open)
            && Step(l', Respond(l.sentAs[q], body)) == l'
  {
    if evs != [] {
      var before := Run(l, evs[..|evs| - 1]);
      SpentIdsStaySpent(l, evs[..|evs| - 1], q, body);
      StepKeepsInv(before, evs[|evs| - 1]);
      StepKeeps(before, evs[|evs| - 1]);
      SpentStaysSpent(before, evs[|evs| - 1], q);
    }
  }

  lemma SpentStaysSpent(l: Link, ev: Event, q: Question)
    requires Inv(l) && q in l.sentAs && (l.sentAs[q] !in l.outstanding || !l.open)
    ensures l.sentAs[q] !in Step(l, ev).outstanding || !Step(l, ev).open
  {
    OutstandingAfter(l, ev, l.sentAs[q]);
    if Sends(l, ev, l.sentAs[q]) {
      NextIdIsNew(l.nextId, l.sentAs[q]);
    }
  }

  predicate Sends(l: Link, ev: Event, id: string) {
    ev == Forward && l.open && l.queue != [] && id == RequestId(l.nextId + 1)
  }

  predicate Responds(ev: Event, id: string) {
    ev.Respond? && ev.id == id
  }

  lemma OutstandingAfter(l: Link, ev: Event, id: string)
    requires Inv(l)
    ensures var l' := Step(l, ev);
            && (l'.open ==> l.open)
            && (l'.open ==> (id in l'.outstanding <==>
                               Sends(l, ev, id) || (id in l.outstanding && !Responds(ev, id))))
            && (!l'.open ==> id !in l'.outstanding)
  {
  }

  /** The event at `i` sends a question out under `id`. */
  predicate SendsAt(evs: seq<Event>, i: nat, id: string)
    requires i < |evs|
  {
    Sends(Run(OPENED, evs[..i]), evs[i], id)
  }

  /** A response to `id` arrives after the event at `i`. */
  predicate AnsweredSince(evs: seq<Event>, i: nat, id: string)
    requires i < |evs|
  {
    i < |evs| - 1 && (Responds(evs[|evs| - 1], id) || AnsweredSince(evs[..|evs| - 1], i, id))
  }

  lemma AskInFront(evs: seq<Event>, i: nat, id: string)
    requires i < |evs| - 1
    ensures SendsAt(evs, i, id) <==> SendsAt(evs[..|evs| - 1], i, id)
    ensures AnsweredSince(evs, i, id) <==> Responds(evs[|evs| - 1], id) || AnsweredSince(evs[..|evs| - 1], i, id)
  {
    assert evs[..|evs| - 1][..i] == evs[..i];
  }

  lemma {:induction false} OutstandingWasSent(evs: seq<Event>, id: string) returns (i: nat)
    requires id in Run(OPENED, evs).outstanding
    ensures i < |evs| && SendsAt(evs, i, id) && !AnsweredSince(evs, i, id)
  {
    var m := |evs| - 1;
    var before := Run(OPENED, evs[..m]);
    ReachedInv(evs[..m]);
    OutstandingAfter(before, evs[m], id);
    if Sends(before, evs[m], id) {
      i := m;
    } else {
      i := OutstandingWasSent(evs[..m], id);
      AskInFront(evs, i, id);
    }
  }

  lemma {:induction false} SentIsOutstanding(evs: seq<Event>, i: nat, id: string)
    requires i < |evs| && SendsAt(evs, i, id) && !AnsweredSince(evs, i, id) && Run(OPENED, evs).open
    ensures id in Run(OPENED, evs).outstanding
  {
    var m := |evs| - 1;
    ReachedInv(evs[..m]);
    OutstandingAfter(Run(OPENED, evs[..m]), evs[m], id);
    if i < m {
      AskInFront(evs, i, id);
      SentIsOutstanding(evs[..m], i, id);
    }
  }

  lemma OnlyOutstandingCounts(l: Link, id: string, body: Body)
    ensures Step(l, Respond(id, body)) != l <==> l.open && id in l.outstanding
  {
    if l.open && id in l.outstanding {
      assert id !in Step(l, Respond(id, body)).outstanding;
    }
  }

  /**
    Late, duplicate and unknown responses change nothing: a response frame has an effect exactly
    when the connection is open, its id was sent out, and no response to it came since.
  */
  lemma ResponseCountsExactlyWhen(evs: seq<Event>, id: string, body: Body)
    ensures var l := Run(OPENED, evs);
            Step(l, Respond(id, body)) != l
            <==> l.open && exists i :: 0 <= i < |evs| && SendsAt(evs, i, id) && !AnsweredSince(evs, i, id)
  {
    var l := Run(OPENED, evs);
    OnlyOutstandingCounts(l, id, body);
    if id in l.outstanding {
      var i := OutstandingWasSent(evs, id);
    }
    if i :| 0 <= i < |evs| && l.open && SendsAt(evs, i, id) && !AnsweredSince(evs, i, id) {
      SentIsOutstanding(evs, i, id);
    }
  }

  /** A response received in time is what its question's asker gets, for good. */
  lemma ResponseReachesItsAsker(evs: seq<Event>, i: nat, q: Question)
    requires i < |evs| && evs[i].Respond?
    requires var before := Run(OPENED, evs[..i]);
             before.open && evs[i].id in before.outstanding && before.outstanding[evs[i].id] == q && q !in before.answers
    ensures var l := Run(OPENED, evs); q in l.answers && l.answers[q] == Reply(evs[i].id, evs[i].body)
  {
    assert evs[..i + 1][..i] == evs[..i];
    KeepsAlong(evs, i + 1);
  }

  /**
    What ends a wait: the response to the id a question is outstanding under, or, without an
    answer, its deadline, the end of the connection, or there being none to ask.
  */
  lemma WaitEndsExactlyWhen(l: Link, ev: Event, q: Question, a: Answer)
    requires Inv(l) && q !in l.answers
    ensures var l' := Step(l, ev);
            q in l'.answers && l'.answers[q] == a
            <==> match a
                 case Reply(id, body) =>
                   ev == Respond(id, body) && l.open && id in l.outstanding && l.outstanding[id] == q
                 case NoAnswer =>
                   || (ev == Expire(q) && q in l.asked)
                   || (ev == Close && l.open && q in l.asked)
                   || (ev == Ask(q) && !l.open && q !in l.asked)
  {
    if ev == Close && l.open {
      CloseAnswers(l, q);
    }
  }

  lemma CloseAnswers(l: Link, q: Question)
    requires Inv(l) && l.open && q !in l.answers
    ensures var answers := ResolveAll(l); (q in answers <==> q in l.asked) && (q in answers ==> answers[q] == NoAnswer)
  {
    if q in l.outstanding.Values {
      var id :| id in l.outstanding && l.outstanding[id] == q;
      assert l.outstanding[id] in l.sentAs;
    }
  }

  /** The questions put into the channel, in order. */
  function Put(evs: seq<Event>): seq<Question> {
    if evs == [] then []
    else
      var before := Run(OPENED, evs[..|evs| - 1]);
      match evs[|evs| - 1]
      case Ask(q) => Put(evs[..|evs| - 1]) + if before.open && q !in before.asked then [q] else []
      case _ => Put(evs[..|evs| - 1])
  }

  /** The questions that went out to the controller, in order. */
  function WentOut(evs: seq<Event>): seq<Question> {
    if evs == [] then []
    else
      var before := Run(OPENED, evs[..|evs| - 1]);
      WentOut(evs[..|evs| - 1])
      + if evs[|evs| - 1] == Forward && before.open && before.queue != [] then [before.queue[0]] else []
  }

  lemma QueueAfter(l: Link, ev: Event)
    ensures var l' := Step(l, ev);
            && l'.open == (l.open && ev != Close)
            && l'.nextId == l.nextId + (if ev == Forward && l.open && l.queue != [] then 1 else 0)
            && (l'.open ==>
                  l'.queue == if ev.Ask? && ev.q !in l.asked then l.queue + [ev.q]
                              else if ev == Forward && l.queue != [] then l.queue[1..] else l.queue)
  {
  }

  /** What has gone out and what waits make up what was put in; once closed, only a beginning of it went out. */
  predicate InOrder(l: Link, out: seq<Question>, put: seq<Question>) {
    if l.open then out + l.queue == put else out <= put
  }

  lemma InOrderAfter(l: Link, ev: Event, out: seq<Question>, put: seq<Question>)
    requires InOrder(l, out, put)
    ensures InOrder(Step(l, ev),
                    out + (if ev == Forward && l.open && l.queue != [] then [l.queue[0]] else []),
                    put + (if ev.Ask? && l.open && ev.q !in l.asked then [ev.q] else []))
  {
    QueueAfter(l, ev);
    if ev == Forward && l.open && l.queue != [] {
      assert (out + [l.queue[0]]) + l.queue[1..] == out + l.queue;
    } else if ev.Ask? && l.open && ev.q !in l.asked {
      Associate(out, l.queue, [ev.q]);
    } else {
      assert out + [] == out && put + [] == put;
    }
  }

  /** Questions go out in the order they were asked, none skipped, and number `k` under the id of `k`. */
  lemma {:induction false} QuestionsGoOutInOrder(evs: seq<Event>)
    ensures InOrder(Run(OPENED, evs), WentOut(evs), Put(evs)) && Run(OPENED, evs).nextId == |WentOut(evs)|
  {
    if evs != [] {
      var front, ev := evs[..|evs| - 1], evs[|evs| - 1];
      QuestionsGoOutInOrder(front);
      InOrderAfter(Run(OPENED, front), ev, WentOut(front), Put(front));
      QueueAfter(Run(OPENED, front), ev);
      PutAndWentOutAfter(evs);
    }
  }

  lemma PutAndWentOutAfter(evs: seq<Event>)
    requires evs != []
    ensures var front, ev := evs[..|evs| - 1], evs[|evs| - 1];
            var l := Run(OPENED, front);
            && WentOut(evs) == WentOut(front) + (if ev == Forward && l.open && l.queue != [] then [l.queue[0]] else [])
            && Put(evs) == Put(front) + (if ev.Ask? && l.open && ev.q !in l.asked then [ev.q] else [])
  {
    assert Put(evs[..|evs| - 1]) + [] == Put(evs[..|evs| - 1]);
  }

  lemma {:induction false} QuestionGoesOutUnderItsNumber(evs: seq<Event>, k: nat)
    requires k < |WentOut(evs)|
    ensures var l := Run(OPENED, evs); WentOut(evs)[k] in l.sentAs && l.sentAs[WentOut(evs)[k]] == RequestId(k + 1)
  {
    var front := evs[..|evs| - 1];
    QuestionsGoOutInOrder(front);
    if k < |WentOut(front)| {
      QuestionGoesOutUnderItsNumber(front, k);
      ReachedInv(front);
      StepKeeps(Run(OPENED, front), evs[|evs| - 1]);
    }
  }

  /** When pump ends, nobody is left waiting, and nobody waits later either. */
  lemma CloseResolvesEverything(evs: seq<Event>, n: nat)
    requires n < |evs| && evs[n] == Close
    ensures var l := Run(OPENED, evs); !l.open && l.asked == l.answers.Keys
  {
    ReachedInv(evs);
    ClosedStaysClosed(evs, n);
    var l := Run(OPENED, evs);
    assert forall q <- l.asked :: q in l.answers;
  }

  lemma {:induction false} ClosedStaysClosed(evs: seq<Event>, n: nat)
    requires n < |evs| && evs[n] == Close
    ensures !Run(OPENED, evs).open
  {
    var m := |evs| - 1;
    if n < m {
      assert evs[..m][n] == Close;
      ClosedStaysClosed(evs[..m], n);
    }
  }
}
