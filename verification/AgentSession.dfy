/**
  The agent across sessions: one update tool that an install takes away and brings back, while
  connections come and go.
*/
module AgentSession {
  import opened Prelude

  type Firmware = string
  type Params = string

  /** How the install task ended. `Crashed` is a task that panicked or was aborted. */
  datatype Outcome = Succeeded(rebootRequired: bool) | Failed | Crashed

  datatype Install = NoInstall | InFlight | Ended(outcome: Outcome)

  datatype Source = Operator | PostInstall | Application

  /** What the agent does that others can see; `Spawned`, `Returned` and `Lost` mark the install job itself. */
  datatype Act =
    | Joined(firmware: Firmware)
    | SaidStarted
    | Spawned
    | Returned(ok: bool)
    | Lost                    // the job crashed
    | NoticedLoss             // and the session found out
    | SaidCompleted
    | SaidFailed
    | SaidDeclined            // `ignored` or `rescheduled`
    | SaidValidated
    | Reboots(source: Source)

  datatype Agent = Agent(
    tool: bool,                        // false while an install owns it
    install: Install,
    firmware: Option<Firmware>,        // cached
    joinParams: Option<Params>,        // cached
    inSession: bool,
    acts: seq<Act>)

  datatype Decision = Apply | Decline

  datatype Event =
    | Open(connected: bool, current: Option<Firmware>, sent: bool)
    | Offer(hasMetadata: bool, decision: Decision, sent: bool)
    | Progress(sent: bool)
    | TaskEnds(outcome: Outcome)
    | TakeOutcome(reboot: bool)        // the session loop polls the finished task
    | AskReboot(source: Source)        // an operator's or an application's
    | AskMarkValid(works: bool)
    | SessionEnds

  /** The tool's join parameters for what is running. */
  function ParamsFor(firmware: Firmware): Params {
    "params:" + firmware
  }

  /** The agent as `Agent::new` leaves it. */
  function NewAgent(current: Option<Firmware>): Agent {
    Agent(true, NoInstall, current,
          if current.Some? then Some(ParamsFor(current.value)) else None, false, [])
  }

  /** The firmware and parameters a session joins with, and the caches it leaves; `None` when it cannot join. */
  function JoinWith(a: Agent, current: Option<Firmware>): Option<(Firmware, Params)> {
    if a.tool then (if current.Some? then Some((current.value, ParamsFor(current.value))) else None)
    else if a.firmware.Some? && a.joinParams.Some? then Some((a.firmware.value, a.joinParams.value))
    else None
  }

  /** What an event makes the agent do that others can see, in order. */
  function Emits(a: Agent, ev: Event): seq<Act> {
    match ev
    case Open(connected, current, _) =>
      var join := JoinWith(a, current);
      if !a.inSession && connected && join.Some? then [Joined(join.value.0)] else []
    case Offer(hasMetadata, decision, _) =>
      if !a.inSession || a.install != NoInstall || !hasMetadata then []
      else if decision == Decline then [SaidDeclined]
      else if a.tool then [SaidStarted, Spawned]
      else [SaidStarted]
    case TaskEnds(outcome) =>
      if a.install != InFlight then []
      else if outcome.Crashed? then [Lost] else [Returned(outcome.Succeeded?)]
    case TakeOutcome(reboot) =>
      if !a.inSession || !a.install.Ended? then []
      else (match a.install.outcome
            case Crashed => [NoticedLoss]
            case Failed => [SaidFailed]
            case Succeeded(required) =>
              if required && reboot then [SaidCompleted, Reboots(PostInstall)] else [SaidCompleted])
    case AskReboot(source) =>
      if !a.inSession || source == PostInstall || (source == Operator && a.install != NoInstall) then []
      else [Reboots(source)]
    case AskMarkValid(works) => if a.inSession && a.tool && works then [SaidValidated] else []
    case Progress(_) => []
    case SessionEnds => []
  }

  /** What an event does to the agent's fields. */
  function Moved(a: Agent, ev: Event): Agent {
    match ev
    case Open(connected, current, sent) =>
      var join := JoinWith(a, current);
      if !a.inSession && connected && join.Some?
      then a.(firmware := Some(join.value.0), joinParams := Some(join.value.1), inSession := sent) else a
    case Offer(hasMetadata, decision, sent) =>
      if !a.inSession || a.install != NoInstall || !hasMetadata then a
      else if decision == Decline then a.(inSession := sent)
      else if a.tool then a.(tool := false, install := InFlight)
      else a
    case Progress(sent) =>
      if a.inSession && a.install == InFlight && !sent then a.(inSession := false) else a
    case TaskEnds(outcome) => if a.install == InFlight then a.(install := Ended(outcome)) else a
    case TakeOutcome(_) =>
      if !a.inSession || !a.install.Ended? then a
      else if a.install.outcome.Crashed? then a.(install := NoInstall, inSession := false)
      else a.(tool := true, install := NoInstall)
    case AskReboot(_) => a
    case AskMarkValid(_) => a
    case SessionEnds => a.(inSession := false)
  }

  function Step(a: Agent, ev: Event): Agent {
    Moved(a, ev).(acts := a.acts + Emits(a, ev))
  }

  function Run(a: Agent, evs: seq<Event>): Agent {
    if evs == [] then a else Step(Run(a, evs[..|evs| - 1]), evs[|evs| - 1])
  }

  // ---- The code's own shape -------------------------------------------------------------------

  class AgentObject {
    var tool: bool
    var install: Install
    var firmware: Option<Firmware>
    var joinParams: Option<Params>
    var inSession: bool
    var acts: seq<Act>

    function Value(): Agent
      reads this
    {
      Agent(tool, install, firmware, joinParams, inSession, acts)
    }

    constructor (current: Option<Firmware>)
      ensures Value() == NewAgent(current)
    {
      tool, install, firmware := true, NoInstall, current;
      joinParams := if current.Some? then Some(ParamsFor(current.value)) else None;
      inSession, acts := false, [];
    }

    /** The head of `session`, up to and including the join. */
    method OpenSession(connected: bool, current: Option<Firmware>, sent: bool)
      requires !inSession
      modifies this
      ensures Value() == Step(old(Value()), Open(connected, current, sent))
    {
      if !connected {
        return;
      }
      var running: Firmware;
      if tool {
        if current.None? {
          return;
        }
        running := current.value;
        firmware := Some(running);
        joinParams := Some(ParamsFor(running));
      } else {
        if firmware.None? || joinParams.None? {
          return;
        }
        running := firmware.value;
      }
      acts := acts + [Joined(running)];
      inSession := sent;
    }

    /** An update offered at join or pushed later: the guard of both arms, then `on_update`. */
    method OnUpdate(hasMetadata: bool, decision: Decision, sent: bool)
      requires inSession
      modifies this
      ensures Value() == Step(old(Value()), Offer(hasMetadata, decision, sent))
    {
      if install != NoInstall {
        return;
      }
      if !hasMetadata {
        return;
      }
      if decision == Decline {
        acts := acts + [SaidDeclined];
        inSession := sent;
        return;
      }
      acts := acts + [SaidStarted];
      if !tool {
        return;
      }
      tool := false;
      acts := acts + [Spawned];
      install := InFlight;
    }

    /** `InstallEvent::Finished`: `on_install_finished` and `settle_reboot`, or a task that never came back. */
    method OnFinished(reboot: bool)
      requires inSession && install.Ended?
      modifies this
      ensures Value() == Step(old(Value()), TakeOutcome(reboot))
    {
      match install.outcome {
        case Crashed =>
          install := NoInstall;
          acts := acts + [NoticedLoss];
          inSession := false;
        case Failed =>
          tool := true;
          install := NoInstall;
          acts := acts + [SaidFailed];
        case Succeeded(required) =>
          tool := true;
          install := NoInstall;
          acts := acts + [SaidCompleted];
          if required && reboot {
            acts := acts + [Reboots(PostInstall)];
          }
      }
    }

    method OnRebootAsked(source: Source)
      requires inSession && source != PostInstall
      modifies this`acts
      ensures Value() == Step(old(Value()), AskReboot(source))
    {
      if source == Operator && install != NoInstall {
        return;
      }
      acts := acts + [Reboots(source)];
    }

    /** Refused while the tool is away, whatever took it. */
    method OnMarkValid(works: bool) returns (marked: bool)
      requires inSession
      modifies this`acts
      ensures marked <==> tool && works
      ensures Value() == Step(old(Value()), AskMarkValid(works))
    {
      marked := false;
      if tool {
        marked := works;
      }
      if marked {
        acts := acts + [SaidValidated];
      }
    }
  }

  // ---- Who owns the tool ----------------------------------------------------------------------

  /** Neither an install nor a tool: a task crashed and the session noticed. */
  predicate Bereft(a: Agent) {
    !a.tool && a.install == NoInstall
  }

  predicate Ownership(a: Agent) {
    && (a.install != NoInstall ==> !a.tool && a.firmware.Some? && a.joinParams.Some?)
    && (a.firmware.Some? <==> a.joinParams.Some?)
    && (a.inSession ==> a.firmware.Some?)
  }

  // ---- What the acts must look like -----------------------------------------------------------

  /** Where a sequence of acts stands; an act out of order leads to `Broken` for good. */
  datatype Phase = Idle | Begun | Flying | Landed(ok: bool) | JustCompleted | Sunk | Toolless | Broken

  function Follows(p: Phase, act: Act): Phase {
    match act
    case Joined(_) => if p == Begun then Broken else p
    case SaidDeclined => if p == Idle || p == JustCompleted then Idle else if p == Toolless then p else Broken
    case SaidValidated => if p == Idle || p == JustCompleted then Idle else Broken
    case SaidStarted => if p == Idle || p == JustCompleted then Begun else if p == Toolless then p else Broken
    case Spawned => if p == Begun then Flying else Broken
    case Returned(ok) => if p == Flying then Landed(ok) else Broken
    case Lost => if p == Flying then Sunk else Broken
    case NoticedLoss => if p == Sunk then Toolless else Broken
    case SaidCompleted => if p == Landed(true) then JustCompleted else Broken
    case SaidFailed => if p == Landed(false) then Idle else Broken
    case Reboots(source) =>
      match source
      case Application => if p == JustCompleted then Idle else if p == Begun then Broken else p
      case Operator => if p == Idle || p == JustCompleted then Idle else if p == Toolless then p else Broken
      case PostInstall => if p == JustCompleted then Idle else Broken
  }

  function Scan(acts: seq<Act>): Phase {
    if acts == [] then Idle else Follows(Scan(acts[..|acts| - 1]), acts[|acts| - 1])
  }

  /** The phase the agent's fields say it is in. */
  predicate Stands(a: Agent, p: Phase) {
    match a.install
    case NoInstall => if a.tool then p == Idle || p == JustCompleted else p == Toolless
    case InFlight => p == Flying
    case Ended(outcome) => p == if outcome.Crashed? then Sunk else Landed(outcome.Succeeded?)
  }

  /** The phase after some more acts. */
  function Onward(p: Phase, acts: seq<Act>): Phase
    decreases |acts|
  {
    if acts == [] then p else Onward(Follows(p, acts[0]), acts[1..])
  }

  lemma {:induction false} ScanOnward(acts: seq<Act>, more: seq<Act>)
    ensures Scan(acts + more) == Onward(Scan(acts), more)
    decreases |more|
  {
    if more == [] {
      assert acts + more == acts;
    } else {
      var one := acts + [more[0]];
      assert one[..|acts|] == acts;
      assert one + more[1..] == acts + more;
      ScanOnward(one, more[1..]);
    }
  }

  predicate Sound(a: Agent) {
    Ownership(a) && Stands(a, Scan(a.acts))
  }

  lemma OnwardTwo(p: Phase, first: Act, second: Act)
    ensures Onward(p, [first, second]) == Follows(Follows(p, first), second)
  {
    var q := Follows(p, first);
    assert [first, second][1..] == [second] && [second][1..] == [];
    assert Onward(q, [second]) == Onward(Follows(q, second), []);
  }

  lemma MovedStands(a: Agent, ev: Event, p: Phase)
    requires Ownership(a) && Stands(a, p)
    ensures Ownership(Moved(a, ev)) && Stands(Moved(a, ev), Onward(p, Emits(a, ev)))
  {
    var acts := Emits(a, ev);
    if |acts| == 2 {
      OnwardTwo(p, acts[0], acts[1]);
      assert acts == [acts[0], acts[1]];
    } else if |acts| == 1 {
      assert Onward(p, acts) == Follows(p, acts[0]);
    }
  }

  lemma StepIsSound(a: Agent, ev: Event)
    requires Sound(a)
    ensures Sound(Step(a, ev))
  {
    ScanOnward(a.acts, Emits(a, ev));
    MovedStands(a, ev, Scan(a.acts));
  }

  /**
    In every run, across reconnects and crashes: an install in flight has the tool, and both
    caches are there; and the acts so far are in order, so `started` comes before each task, one
    `completed` or `failed` after each that returns, `completed` before the reboot it leads to,
    and no operator's or post-install reboot, and no validation, while one is in flight.
  */
  lemma {:induction false} RunsAreInOrder(current: Option<Firmware>, evs: seq<Event>)
    ensures var a := Run(NewAgent(current), evs);
            && Sound(a) && Scan(a.acts) != Broken
            && (Bereft(a) <==> Scan(a.acts) == Toolless)
  {
    if evs != [] {
      RunsAreInOrder(current, evs[..|evs| - 1]);
      StepIsSound(Run(NewAgent(current), evs[..|evs| - 1]), evs[|evs| - 1]);
    }
  }

  datatype Kind =
    | AnyJoined | AnyStarted | AnySpawned | AnyReturned | AnyLost | AnyNoticed
    | AnyReported | AnyCompleted | AnyFailed | AnyDeclined | AnyValidated
    | AnyOperator | AnyApplication | AnyPostInstall

  predicate Is(act: Act, kind: Kind) {
    match kind
    case AnyJoined => act.Joined?
    case AnyNoticed => act.NoticedLoss?
    case AnyFailed => act.SaidFailed?
    case AnyDeclined => act.SaidDeclined?
    case AnyValidated => act.SaidValidated?
    case AnyOperator => act == Reboots(Operator)
    case AnyApplication => act == Reboots(Application)
    case AnyStarted => act.SaidStarted?
    case AnySpawned => act.Spawned?
    case AnyReturned => act.Returned?
    case AnyLost => act.Lost?
    case AnyReported => act.SaidCompleted? || act.SaidFailed?
    case AnyCompleted => act.SaidCompleted?
    case AnyPostInstall => act == Reboots(PostInstall)
  }

  function Count(acts: seq<Act>, kind: Kind): nat {
    if acts == [] then 0
    else Count(acts[..|acts| - 1], kind) + if Is(acts[|acts| - 1], kind) then 1 else 0
  }

  function One(b: bool): nat {
    if b then 1 else 0
  }

  /** What order means in numbers: every task that was spawned returned, was lost, or is in flight. */
  lemma {:induction false} EveryTaskEndsOnce(acts: seq<Act>)
    requires Scan(acts) != Broken
    ensures var p := Scan(acts);
            && Count(acts, AnySpawned) == Count(acts, AnyReturned) + Count(acts, AnyLost) + One(p == Flying)
            && Count(acts, AnyLost) == One(p == Sunk || p == Toolless)
  {
    if acts != [] {
      EveryTaskEndsOnce(acts[..|acts| - 1]);
    }
  }

  /** Every task that returned has been reported exactly once, or is about to be; a reboot follows only a completion. */
  lemma {:induction false} EveryReturnIsReportedOnce(acts: seq<Act>)
    requires Scan(acts) != Broken
    ensures var p := Scan(acts);
            && Count(acts, AnyReturned) == Count(acts, AnyReported) + One(p.Landed?)
            && Count(acts, AnyPostInstall) + One(p == JustCompleted) <= Count(acts, AnyCompleted)
  {
    if acts != [] {
      EveryReturnIsReportedOnce(acts[..|acts| - 1]);
    }
  }

  /** Every task has its own `started` before it; more are said only once the tool is lost. */
  lemma {:induction false} EveryTaskWasAnnounced(acts: seq<Act>)
    requires Scan(acts) != Broken
    ensures var p := Scan(acts);
            && Count(acts, AnyStarted) >= Count(acts, AnySpawned) + One(p == Begun)
            && (p != Toolless ==> Count(acts, AnyStarted) == Count(acts, AnySpawned) + One(p == Begun))
  {
    if acts != [] {
      EveryTaskWasAnnounced(acts[..|acts| - 1]);
    }
  }

  /** A session opened while an install holds the tool joins with what was running when it began. */
  lemma MidInstallSessionCanJoin(a: Agent, current: Option<Firmware>, sent: bool)
    requires Ownership(a) && a.install != NoInstall && !a.inSession
    ensures var a' := Step(a, Open(true, current, sent));
            && a'.inSession == sent && a'.acts == a.acts + [Joined(a.firmware.value)]
            && a'.firmware == a.firmware && a'.joinParams == a.joinParams
  {
  }

  lemma NothingSpawnsDuringAnInstall(a: Agent, ev: Event)
    requires Ownership(a) && a.install != NoInstall && !ev.TakeOutcome?
    ensures var m := Moved(a, ev);
            && Ownership(m) && m.install != NoInstall
            && m.firmware == a.firmware && m.joinParams == a.joinParams
            && Spawned !in Emits(a, ev)
  {
  }

  lemma {:induction false} CachesLastThroughAnInstall(a: Agent, evs: seq<Event>)
    requires Ownership(a) && a.install != NoInstall
    requires forall e <- evs :: !e.TakeOutcome?
    ensures var a' := Run(a, evs);
            && Ownership(a') && a'.install != NoInstall
            && a'.firmware == a.firmware && a'.joinParams == a.joinParams
            && a.acts <= a'.acts && Spawned !in a'.acts[|a.acts|..]
  {
    if evs != [] {
      var last := evs[|evs| - 1];
      CachesLastThroughAnInstall(a, evs[..|evs| - 1]);
      NothingSpawnsDuringAnInstall(Run(a, evs[..|evs| - 1]), last);
    }
  }

  /**
    After a crashed task the tool is gone for the life of the process: updates are still answered
    with `started`, and nothing is ever installed, completed, failed or validated again.
  */
  lemma {:induction false} BereftForGood(a: Agent, evs: seq<Event>)
    requires Bereft(a)
    ensures var a' := Run(a, evs);
            && Bereft(a') && a.acts <= a'.acts
            && (forall x <- a'.acts[|a.acts|..] ::
                  x.Joined? || x.SaidStarted? || x.SaidDeclined? || x.Reboots?)
  {
    if evs != [] {
      BereftForGood(a, evs[..|evs| - 1]);
    }
  }

  /** The tool went with a task that crashed, whether or not a session has found out. */
  predicate ToolGone(a: Agent) {
    !a.tool && (a.install == NoInstall || a.install == Ended(Crashed))
  }

  lemma {:induction false} GoneStaysGone(a: Agent, evs: seq<Event>)
    requires ToolGone(a)
    ensures ToolGone(Run(a, evs))
  {
    if evs != [] {
      GoneStaysGone(a, evs[..|evs| - 1]);
    }
  }

  lemma RunThen(a: Agent, evs: seq<Event>, ev: Event)
    ensures Run(a, evs + [ev]) == Step(Run(a, evs), ev)
  {
    assert (evs + [ev])[..|evs|] == evs;
  }

  /** The task fails if it has not ended, a session opens, and the outcome is taken. */
  lemma ToolReturns(a: Agent) returns (evs: seq<Event>)
    requires Ownership(a) && !ToolGone(a)
    ensures Run(a, evs).tool
  {
    if a.tool {
      evs := [];
    } else {
      var ends, opens, takes := TaskEnds(Failed), Open(true, None, true), TakeOutcome(false);
      evs := [] + [ends] + [opens] + [takes];
      RunThen(a, [], ends);
      RunThen(a, [] + [ends], opens);
      RunThen(a, [] + [ends] + [opens], takes);
    }
  }

  lemma ReturnsUnlessGone(a: Agent)
    requires Ownership(a)
    ensures (forall evs :: !Run(a, evs).tool) <==> ToolGone(a)
  {
    if ToolGone(a) {
      forall evs ensures !Run(a, evs).tool {
        GoneStaysGone(a, evs);
      }
    } else {
      var evs := ToolReturns(a);
    }
  }

  /** At some point of the run an install task ended in a crash. */
  predicate TaskCrashed(current: Option<Firmware>, evs: seq<Event>) {
    evs != []
    && var front := evs[..|evs| - 1];
       TaskCrashed(current, front)
       || (evs[|evs| - 1] == TaskEnds(Crashed) && Run(NewAgent(current), front).install == InFlight)
  }

  lemma GoneAfter(a: Agent, ev: Event)
    requires Ownership(a)
    ensures ToolGone(Moved(a, ev)) <==> ToolGone(a) || (ev == TaskEnds(Crashed) && a.install == InFlight)
  {
  }

  lemma {:induction false} GoneExactlyWhenCrashed(current: Option<Firmware>, evs: seq<Event>)
    ensures ToolGone(Run(NewAgent(current), evs)) <==> TaskCrashed(current, evs)
  {
    if evs != [] {
      var front := evs[..|evs| - 1];
      GoneExactlyWhenCrashed(current, front);
      RunsAreInOrder(current, front);
      GoneAfter(Run(NewAgent(current), front), evs[|evs| - 1]);
    }
  }

  /** In every life of an agent: the tool can never come back, whatever follows, exactly when an install task crashed. */
  lemma ToolNeverReturnsExactlyWhen(current: Option<Firmware>, evs: seq<Event>)
    ensures (forall later :: !Run(Run(NewAgent(current), evs), later).tool) <==> TaskCrashed(current, evs)
  {
    RunsAreInOrder(current, evs);
    ReturnsUnlessGone(Run(NewAgent(current), evs));
    GoneExactlyWhenCrashed(current, evs);
  }

  // ---- Every act has its cause ------------------------------------------------------------------

  /** An update is offered with its metadata to an agent in session that installs nothing. */
  predicate Considers(a: Agent, ev: Event) {
    ev.Offer? && ev.hasMetadata && a.inSession && a.install == NoInstall
  }

  /** The session takes the outcome of a task that has ended. */
  predicate Takes(a: Agent, ev: Event) {
    ev.TakeOutcome? && a.inSession && a.install.Ended?
  }

  /** A session opens, and there is something to join with. */
  predicate Enters(a: Agent, ev: Event) {
    && ev.Open? && ev.connected && !a.inSession
    && if a.tool then ev.current.Some? else a.firmware.Some? && a.joinParams.Some?
  }

  /** When an act of each kind must happen. */
  predicate Causes(a: Agent, ev: Event, kind: Kind) {
    match kind
    case AnyJoined => Enters(a, ev)
    case AnyStarted => Considers(a, ev) && ev.decision == Apply
    case AnySpawned => Considers(a, ev) && ev.decision == Apply && a.tool
    case AnyDeclined => Considers(a, ev) && ev.decision == Decline
    case AnyReturned => ev.TaskEnds? && a.install == InFlight && ev.outcome != Crashed
    case AnyLost => ev == TaskEnds(Crashed) && a.install == InFlight
    case AnyNoticed => Takes(a, ev) && a.install == Ended(Crashed)
    case AnyFailed => Takes(a, ev) && a.install == Ended(Failed)
    case AnyCompleted => Takes(a, ev) && (a.install == Ended(Succeeded(true)) || a.install == Ended(Succeeded(false)))
    case AnyReported => Takes(a, ev) && a.install != Ended(Crashed)
    case AnyPostInstall => ev == TakeOutcome(true) && a.inSession && a.install == Ended(Succeeded(true))
    case AnyOperator => ev == AskReboot(Operator) && a.inSession && a.install == NoInstall
    case AnyApplication => ev == AskReboot(Application) && a.inSession
    case AnyValidated => ev == AskMarkValid(true) && a.inSession && a.tool
  }

  lemma CountOfNone(kind: Kind)
    ensures Count([], kind) == 0
  {
  }

  lemma CountOfOne(x: Act, kind: Kind)
    ensures Count([x], kind) == One(Is(x, kind))
  {
    assert [x][..|[x]| - 1] == [];
    CountOfNone(kind);
  }

  lemma CountOfTwo(x: Act, y: Act, kind: Kind)
    ensures Count([x, y], kind) == One(Is(x, kind)) + One(Is(y, kind))
  {
    assert [x, y][..|[x, y]| - 1] == [x];
    CountOfOne(x, kind);
  }

  lemma {:induction false} CountAdds(acts: seq<Act>, more: seq<Act>, kind: Kind)
    ensures Count(acts + more, kind) == Count(acts, kind) + Count(more, kind)
  {
    if more == [] {
      assert acts + more == acts;
    } else {
      assert (acts + more)[..|acts + more| - 1] == acts + more[..|more| - 1];
      CountAdds(acts, more[..|more| - 1], kind);
    }
  }

  /** What one event of each sort emits: nothing, one act or two, by cause. */
  lemma OfferEmits(a: Agent, ev: Event, kind: Kind)
    requires ev.Offer?
    ensures Count(Emits(a, ev), kind) == One(Causes(a, ev, kind))
  {
    CountOfNone(kind);
    CountOfOne(SaidDeclined, kind);
    CountOfOne(SaidStarted, kind);
    CountOfTwo(SaidStarted, Spawned, kind);
  }

  lemma OutcomeEmits(a: Agent, ev: Event, kind: Kind)
    requires ev.TakeOutcome?
    ensures Count(Emits(a, ev), kind) == One(Causes(a, ev, kind))
  {
    CountOfNone(kind);
    CountOfOne(NoticedLoss, kind);
    CountOfOne(SaidFailed, kind);
    CountOfOne(SaidCompleted, kind);
    CountOfTwo(SaidCompleted, Reboots(PostInstall), kind);
  }

  lemma RestEmits(a: Agent, ev: Event, kind: Kind)
    requires !ev.Offer? && !ev.TakeOutcome?
    ensures Count(Emits(a, ev), kind) == One(Causes(a, ev, kind))
  {
    var acts := Emits(a, ev);
    CountOfNone(kind);
    if acts != [] {
      assert acts == [acts[0]];
      CountOfOne(acts[0], kind);
    }
  }

  lemma EmitsWhatIsCaused(a: Agent, ev: Event, kind: Kind)
    ensures Count(Emits(a, ev), kind) == One(Causes(a, ev, kind))
  {
    if ev.Offer? {
      OfferEmits(a, ev, kind);
    } else if ev.TakeOutcome? {
      OutcomeEmits(a, ev, kind);
    } else {
      RestEmits(a, ev, kind);
    }
  }

  /** How often in a run an act of a kind was caused. */
  function Caused(current: Option<Firmware>, evs: seq<Event>, kind: Kind): nat {
    if evs == [] then 0
    else
      var front := evs[..|evs| - 1];
      Caused(current, front, kind) + One(Causes(Run(NewAgent(current), front), evs[|evs| - 1], kind))
  }

  /**
    In every run, and so up to every point of it, each kind of act has happened exactly as often
    as it was caused: a reboot after an install only when it was decided, and then each time.
  */
  lemma {:induction false} ActsExactlyWhenCaused(current: Option<Firmware>, evs: seq<Event>, kind: Kind)
    ensures Count(Run(NewAgent(current), evs).acts, kind) == Caused(current, evs, kind)
  {
    if evs != [] {
      var a := Run(NewAgent(current), evs[..|evs| - 1]);
      ActsExactlyWhenCaused(current, evs[..|evs| - 1], kind);
      EmitsWhatIsCaused(a, evs[|evs| - 1], kind);
      CountAdds(a.acts, Emits(a, evs[|evs| - 1]), kind);
    }
  }

  /** A session opened with the tool joins with what the tool says is running, and that is cached. */
  lemma SessionJoinsWithWhatRuns(a: Agent, current: Firmware, sent: bool)
    requires a.tool && !a.inSession
    ensures var a' := Step(a, Open(true, Some(current), sent));
            && a'.acts == a.acts + [Joined(current)] && a'.inSession == sent
            && a'.firmware == Some(current) && a'.joinParams == Some("params:" + current)
  {
  }

  /** When an agent is in session after an event. */
  lemma SessionLastsExactlyWhen(a: Agent, ev: Event)
    ensures Step(a, ev).inSession
            <==> if a.inSession
                 then !(ev.SessionEnds? || (Considers(a, ev) && ev.decision == Decline && !ev.sent)
                        || (ev.Progress? && a.install == InFlight && !ev.sent)
                        || (Takes(a, ev) && a.install == Ended(Crashed)))
                 else Enters(a, ev) && ev.sent
  {
  }

  /** What is cached is always about one firmware. */
  lemma {:induction false} CachesAgree(current: Option<Firmware>, evs: seq<Event>)
    ensures var a := Run(NewAgent(current), evs);
            a.joinParams == if a.firmware.Some? then Some("params:" + a.firmware.value) else None
  {
    if evs != [] {
      CachesAgree(current, evs[..|evs| - 1]);
    }
  }
}
