/** The controller slot of the local socket: many connections, one lock, at most one controller. */
module IpcController {
  import opened Prelude

  type Conn = nat

  datatype Role = Controller | Observer

  /** Where a connection stands in `serve`, between the points at which others can run. */
  datatype Phase =
    | Greeted      // a well-formed hello was read
    | Welcoming    // past the slot check, Welcome not yet written
    | Pumping
    | Releasing    // pump has returned, the slot not yet cleared
    | Gone

  datatype Peer = Peer(role: Role, phase: Phase)

  /** The slot names the connection whose channel it holds. */
  datatype Server = Server(slot: Option<Conn>, peers: map<Conn, Peer>)

  datatype Event =
    | Hello(c: Conn, role: Role)
    | Check(c: Conn)                 // claims the slot, or is refused
    | Welcome(c: Conn, written: bool)
    | PumpEnds(c: Conn)
    | Release(c: Conn)

  predicate In(s: Server, c: Conn, phase: Phase) {
    c in s.peers && s.peers[c].phase == phase
  }

  function Move(s: Server, c: Conn, phase: Phase): Server
    requires c in s.peers
  {
    s.(peers := s.peers[c := s.peers[c].(phase := phase)])
  }

  /** One step of one connection; a step that is not that connection's next does nothing. */
  function Step(s: Server, ev: Event): Server {
    match ev
    case Hello(c, role) => if c in s.peers then s else s.(peers := s.peers[c := Peer(role, Greeted)])
    case Check(c) =>
      if !In(s, c, Greeted) then s
      else if s.peers[c].role.Observer? then Move(s, c, Welcoming)
      else if s.slot.Some? then Move(s, c, Gone)
      else Move(s, c, Welcoming).(slot := Some(c))
    case Welcome(c, written) =>
      // A failed write returns from `serve` at once, past the code that clears the slot.
      if In(s, c, Welcoming) then Move(s, c, if written then Pumping else Gone) else s
    case PumpEnds(c) => if In(s, c, Pumping) then Move(s, c, Releasing) else s
    case Release(c) =>
      if !In(s, c, Releasing) then s
      else Move(s, c, Gone).(slot := if s.peers[c].role.Controller? then None else s.slot)
  }

  /** `serve`, cut at its awaits, over the shared slot. */
  class Ipc {
    var slot: Option<Conn>
    var peers: map<Conn, Peer>

    function Value(): Server
      reads this
    {
      Server(slot, peers)
    }

    constructor ()
      ensures Value() == Server(None, map[])
    {
      slot, peers := None, map[];
    }

    method CheckRole(c: Conn) returns (refused: bool)
      requires In(Value(), c, Greeted)
      modifies this
      ensures Value() == Step(old(Value()), Check(c))
      ensures refused <==> peers[c].phase == Gone
      ensures refused ==> slot == old(slot)
    {
      refused := false;
      var role := peers[c].role;
      if role == Controller {
        if slot.Some? {
          peers := peers[c := Peer(role, Gone)];
          return true;
        }
        slot := Some(c);
      }
      peers := peers[c := Peer(role, Welcoming)];
    }

    method WriteWelcome(c: Conn, written: bool)
      requires In(Value(), c, Welcoming)
      modifies this`peers
      ensures Value() == Step(old(Value()), Welcome(c, written))
    {
      if !written {
        peers := peers[c := peers[c].(phase := Gone)];
        return;
      }
      peers := peers[c := peers[c].(phase := Pumping)];
    }

    method AfterPump(c: Conn)
      requires In(Value(), c, Releasing)
      modifies this
      ensures Value() == Step(old(Value()), Release(c))
    {
      if peers[c].role == Controller {
        slot := None;
      }
      peers := peers[c := peers[c].(phase := Gone)];
    }
  }

  function Run(s: Server, evs: seq<Event>): Server {
    if evs == [] then s else Step(Run(s, evs[..|evs| - 1]), evs[|evs| - 1])
  }

  /** `c` has claimed the slot and not yet given it back. */
  predicate Holds(s: Server, c: Conn) {
    && c in s.peers && s.peers[c].role.Controller?
    && (s.peers[c].phase.Welcoming? || s.peers[c].phase.Pumping? || s.peers[c].phase.Releasing?)
  }

  /** The slot still names a controller whose Welcome could not be written. */
  predicate Leaked(s: Server) {
    s.slot.Some? && In(s, s.slot.value, Gone)
  }

  predicate Inv(s: Server) {
    && (forall c <- s.peers :: Holds(s, c) ==> s.slot == Some(c))
    && (s.slot.Some? ==> Holds(s, s.slot.value) || Leaked(s))
  }

  lemma StepKeepsInv(s: Server, ev: Event)
    requires Inv(s)
    ensures Inv(Step(s, ev))
    ensures Leaked(s) ==> Leaked(Step(s, ev)) && Step(s, ev).slot == s.slot
    ensures !Leaked(s) ==> (Leaked(Step(s, ev)) <==> ev.Welcome? && !ev.written && In(s, ev.c, Welcoming) && Holds(s, ev.c))
  {
  }

  /** Over any interleaving: at most one connection is between claim and release. */
  lemma {:induction false} AtMostOneController(evs: seq<Event>, c: Conn, d: Conn)
    ensures var s := Run(Server(None, map[]), evs);
            Inv(s) && (Holds(s, c) && Holds(s, d) ==> c == d)
  {
    if evs != [] {
      AtMostOneController(evs[..|evs| - 1], c, d);
      StepKeepsInv(Run(Server(None, map[]), evs[..|evs| - 1]), evs[|evs| - 1]);
    }
  }

  /** The unconditional clear on exit frees the claim of the connection that exits and no other. */
  lemma ReleaseFreesItsOwnClaim(s: Server, c: Conn)
    requires Inv(s) && In(s, c, Releasing)
    ensures var s' := Step(s, Release(c));
            && (s.peers[c].role.Controller? ==> s.slot == Some(c) && s'.slot == None)
            && (s.peers[c].role.Observer? ==> s'.slot == s.slot)
            && (forall d :: d != c ==> Holds(s', d) == Holds(s, d))
  {
  }

  /**
    While no Welcome has failed, a claim is refused exactly when another connection holds the
    slot. After one has, the slot names a connection that is gone, and every later claim in every
    later run is refused.
  */
  lemma ClaimRefusedExactlyWhen(s: Server, c: Conn)
    requires Inv(s) && In(s, c, Greeted) && s.peers[c].role.Controller?
    ensures var s' := Step(s, Check(c));
            && (In(s', c, Gone) <==> Leaked(s) || exists d :: Holds(s, d))
            && (In(s', c, Gone) ==> s'.slot == s.slot)
            && (!In(s', c, Gone) ==> Holds(s', c))
  {
  }

  lemma {:induction false} LeakLocksOutForever(s: Server, evs: seq<Event>, c: Conn)
    requires Inv(s) && Leaked(s)
    ensures var s' := Run(s, evs);
            && Inv(s') && Leaked(s') && s'.slot == s.slot && !Holds(s', c)
            && (In(s', c, Greeted) && s'.peers[c].role.Controller? ==> In(Step(s', Check(c)), c, Gone))
  {
    if evs != [] {
      LeakLocksOutForever(s, evs[..|evs| - 1], c);
      StepKeepsInv(Run(s, evs[..|evs| - 1]), evs[|evs| - 1]);
    }
  }

  /** The event at `i` fails to welcome a controller that had claimed the slot. */
  predicate FailsToWelcome(evs: seq<Event>, i: nat)
    requires i < |evs|
  {
    var before := Run(Server(None, map[]), evs[..i]);
    evs[i].Welcome? && !evs[i].written && In(before, evs[i].c, Welcoming) && before.peers[evs[i].c].role.Controller?
  }

  /** The slot is leaked exactly when some controller's Welcome could not be written. */
  lemma {:induction false} LeakedExactlyWhen(evs: seq<Event>)
    ensures Leaked(Run(Server(None, map[]), evs)) <==> exists i :: 0 <= i < |evs| && FailsToWelcome(evs, i)
  {
    if evs != [] {
      var n := |evs| - 1;
      var front := evs[..n];
      LeakedExactlyWhen(front);
      AtMostOneController(front, 0, 0);
      StepKeepsInv(Run(Server(None, map[]), front), evs[n]);
      forall i | 0 <= i < n ensures FailsToWelcome(front, i) <==> FailsToWelcome(evs, i) {
        assert front[..i] == evs[..i] && front[i] == evs[i];
      }
      if Leaked(Run(Server(None, map[]), front)) {
        var i :| 0 <= i < n && FailsToWelcome(front, i);
        assert FailsToWelcome(evs, i);
      } else if Leaked(Run(Server(None, map[]), evs)) {
        assert FailsToWelcome(evs, n);
      } else if FailsToWelcome(evs, n) {
        assert Holds(Run(Server(None, map[]), front), evs[n].c);
      }
    }
  }

  lemma TwoMore(s: Server, evs: seq<Event>, ev: Event)
    ensures Run(s, evs + [ev]) == Step(Run(s, evs), ev)
  {
    assert (evs + [ev])[..|evs|] == evs;
  }

  /** And the slot can ever be free again exactly when it is not leaked. */
  lemma FreedAgainExactlyWhen(s: Server)
    requires Inv(s)
    ensures (exists evs :: Run(s, evs).slot.None?) <==> !Leaked(s)
  {
    if Leaked(s) {
      forall evs ensures Run(s, evs).slot.Some? {
        LeakLocksOutForever(s, evs, 0);
      }
    } else if s.slot.None? {
      assert Run(s, []).slot.None?;
    } else {
      var c := s.slot.value;
      var welcome, ends := Welcome(c, true), PumpEnds(c);
      TwoMore(s, [], welcome);
      TwoMore(s, [welcome], ends);
      TwoMore(s, [welcome] + [ends], Release(c));
      assert [] + [welcome] == [welcome];
      assert Run(s, []) == s;
      assert Run(s, [welcome] + [ends] + [Release(c)]).slot.None?;
    }
  }

  /** A whole visit of an observer: admitted whatever the slot holds, and never touching it. */
  lemma ObserverVisits(s: Server, c: Conn)
    requires c !in s.peers
    ensures var checked := Step(Step(s, Hello(c, Observer)), Check(c));
            var pumping := Step(checked, Welcome(c, true));
            var ended := Step(pumping, PumpEnds(c));
            var left := Step(ended, Release(c));
            && In(checked, c, Welcoming) && In(pumping, c, Pumping) && In(ended, c, Releasing) && In(left, c, Gone)
            && checked.slot == pumping.slot == ended.slot == left.slot == s.slot
            && In(Step(checked, Welcome(c, false)), c, Gone)
  {
  }

  /** And of a controller that finds the slot free: it holds the slot from the check to the release. */
  lemma ControllerVisits(s: Server, c: Conn)
    requires c !in s.peers && s.slot.None?
    ensures var checked := Step(Step(s, Hello(c, Controller)), Check(c));
            var pumping := Step(checked, Welcome(c, true));
            var ended := Step(pumping, PumpEnds(c));
            var left := Step(ended, Release(c));
            && In(checked, c, Welcoming) && In(pumping, c, Pumping) && In(ended, c, Releasing) && In(left, c, Gone)
            && checked.slot == pumping.slot == ended.slot == Some(c) && left.slot == None
  {
  }

  /** One connection's steps never move another, and nobody changes role. */
  lemma StepsAreOnesOwn(s: Server, ev: Event, d: Conn)
    requires d in s.peers
    ensures var s' := Step(s, ev);
            && d in s'.peers && s'.peers[d].role == s.peers[d].role
            && (ev.c != d ==> s'.peers[d] == s.peers[d])
  {
  }
}
