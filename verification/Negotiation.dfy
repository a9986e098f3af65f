/** Negotiating extensions over one session: what is offered, what is attached, what is served. */
module Negotiation {
  import opened Prelude

  datatype Json =
    | Object(fields: map<string, Json>)
    | Array(items: seq<Json>)
    | Text(text: string)
    | Number(n: nat)
    | Other

  const HEALTH := "health"
  const GEO := "geo"
  const LOGGING := "logging"
  const NETWORK_IDENTITY := "network_identity"
  const LOCAL_SHELL := "local_shell"

  datatype Config = Config(health: bool, geo: bool, logging: bool, networkIdentity: bool, localShell: bool)

  predicate Enabled(config: Config, key: string) {
    || (config.health && key == HEALTH)
    || (config.geo && key == GEO)
    || (config.logging && key == LOGGING)
    || (config.networkIdentity && key == NETWORK_IDENTITY)
    || (config.localShell && key == LOCAL_SHELL)
  }

  /** The enabled keys, in the order they are offered. */
  function OfferedBy(config: Config): (offered: seq<string>)
    ensures forall key :: key in offered <==> Enabled(config, key)
  {
    (if config.health then [HEALTH] else [])
    + (if config.geo then [GEO] else [])
    + (if config.logging then [LOGGING] else [])
    + (if config.networkIdentity then [NETWORK_IDENTITY] else [])
    + (if config.localShell then [LOCAL_SHELL] else [])
  }

  /** What this agent implements of `key`. */
  function Version(key: string): string {
    if key == LOGGING then "0.1.0" else "0.0.1"
  }

  /** The platform's list for `key` names this agent's version; anything but a map is no advertisement. */
  predicate Offering(advertisement: Option<Json>, key: string) {
    if advertisement.None? || !advertisement.value.Object? then true
    else
      var fields := advertisement.value.fields;
      key in fields && fields[key].Array? && Text(Version(key)) in fields[key].items
  }

  datatype Incoming =
    | HealthCheck
    | LocationRequest
    | ShellRequested
    | ShellInput(data: string)
    | IdentityRequest
    | WindowSize(rows: nat, cols: nat)

  /** The extension an incoming request is for. */
  function KeyOf(incoming: Incoming): string {
    match incoming
    case HealthCheck => HEALTH
    case LocationRequest => GEO
    case IdentityRequest => NETWORK_IDENTITY
    case _ => LOCAL_SHELL
  }

  function Field(payload: Json, key: string): Option<Json> {
    if payload.Object? && key in payload.fields then Some(payload.fields[key]) else None
  }

  /** A 64-bit number cut to sixteen bits, or the default. */
  function Cells(v: Option<Json>, default: nat): nat {
    if v.Some? && v.value.Number? then v.value.n % 0x1_0000 else default
  }

  class Extensions {
    const offered: seq<string>
    var attached: seq<string>

    constructor (config: Config)
      ensures offered == OfferedBy(config) && attached == []
    {
      offered := (if config.health then [HEALTH] else [])
                 + (if config.geo then [GEO] else [])
                 + (if config.logging then [LOGGING] else [])
                 + (if config.networkIdentity then [NETWORK_IDENTITY] else [])
                 + (if config.localShell then [LOCAL_SHELL] else []);
      attached := [];
    }

    /** What to offer, given what the platform said it has. */
    function JoinPayload(advertisement: Option<Json>): (versions: map<string, string>)
      ensures versions == OfferOf(offered, advertisement)
    {
      map key | key in offered && Offering(advertisement, key) :: key := Version(key)
    }

    method Attach(list: seq<string>) returns (confirmations: seq<string>)
      modifies this`attached
      ensures attached == Wanted(offered, list)
      ensures confirmations == attached
    {
      var kept := [];
      for i := 0 to |list|
        invariant kept == Wanted(offered, list[..i])
      {
        if list[i] in offered {
          kept := kept + [list[i]];
        }
        assert list[..i + 1][..i] == list[..i];
      }
      assert list[..|list|] == list;
      attached := kept;
      confirmations := kept;
    }

    method Reset()
      modifies this`attached
      ensures attached == []
    {
      attached := [];
    }

    method Handle(event: string, payload: Json) returns (incoming: Option<Incoming>)
      ensures incoming == Interpret(attached, event, payload)
    {
      incoming := None;
      if event == "health:check" {
        if HEALTH in attached { incoming := Some(HealthCheck); }
      } else if event == "geo:location:request" {
        if GEO in attached { incoming := Some(LocationRequest); }
      } else if event == "network_identity:request" {
        if NETWORK_IDENTITY in attached { incoming := Some(IdentityRequest); }
      } else if LOCAL_SHELL in attached {
        if event == "local_shell:request_shell" {
          incoming := Some(ShellRequested);
        } else if event == "local_shell:shell_input" {
          var data := Field(payload, "data");
          if data.Some? && data.value.Text? {
            incoming := Some(ShellInput(data.value.text));
          }
        } else if event == "local_shell:window_size" {
          incoming := Some(WindowSize(Cells(Field(payload, "rows"), 24), Cells(Field(payload, "cols"), 80)));
        }
      }
    }
  }

  /** The offer: the enabled keys the platform can serve, each at this agent's version. */
  function OfferOf(offered: seq<string>, advertisement: Option<Json>): map<string, string> {
    map key | key in offered && Offering(advertisement, key) :: key := Version(key)
  }

  /** The keys of an attach list that were offered, in its order. */
  function Wanted(offered: seq<string>, list: seq<string>): (kept: seq<string>)
    ensures forall key :: key in kept <==> key in list && key in offered
  {
    if list == [] then []
    else
      Wanted(offered, list[..|list| - 1])
      + (if list[|list| - 1] in offered then [list[|list| - 1]] else [])
  }

  /** The request an event is, when its extension is attached. */
  function Interpret(attached: seq<string>, event: string, payload: Json): (incoming: Option<Incoming>)
    ensures incoming.Some? ==> KeyOf(incoming.value) in attached
  {
    var shell := LOCAL_SHELL in attached;
    var data := Field(payload, "data");
    if event == "health:check" && HEALTH in attached then Some(HealthCheck)
    else if event == "geo:location:request" && GEO in attached then Some(LocationRequest)
    else if event == "network_identity:request" && NETWORK_IDENTITY in attached then Some(IdentityRequest)
    else if event == "local_shell:request_shell" && shell then Some(ShellRequested)
    else if event == "local_shell:shell_input" && shell && data.Some? && data.value.Text?
      then Some(ShellInput(data.value.text))
    else if event == "local_shell:window_size" && shell
      then Some(WindowSize(Cells(Field(payload, "rows"), 24), Cells(Field(payload, "cols"), 80)))
    else None
  }

  // ---- A session ------------------------------------------------------------------------------

  /** A message reference; `None` is a frame that carries none. */
  type Ref = Option<nat>

  /** What the session has sent on the extensions topic, or served because of it. */
  datatype Out =
    | Join(reference: Ref, offer: map<string, string>)
    | Confirm(key: string)
    | Serve(incoming: Incoming)
    | SendLogs

  datatype Session = Session(
    offered: seq<string>,
    attached: seq<string>,
    refs: nat,
    joinRef: Ref,            // extensions_join_ref
    joined: bool,            // extensions_joined
    deadline: bool,          // a deadline is set
    closed: bool,
    outs: seq<Out>)

  datatype Event =
    | DeviceJoined
    | Advertised(advertisement: Option<Json>)
    | DeadlinePasses
    | Reply(reference: Ref, ok: bool, list: seq<string>)
    | Pushed(event: string, payload: Json)
    | FlushTick(waiting: bool)
    | OtherSend                              // anything else that takes a reference
    | ChannelClosed

  function NewSession(offered: seq<string>): Session {
    Session(offered, [], 0, None, false, false, false, [])
  }

  /** The join goes out at the first advertisement, or at the deadline if none came. */
  predicate JoinsNow(s: Session, ev: Event) {
    !s.joined && (ev.Advertised? || (ev.DeadlinePasses? && s.deadline))
  }

  function Confirms(keys: seq<string>): seq<Out> {
    seq(|keys|, i requires 0 <= i < |keys| => Confirm(keys[i]))
  }

  /** What an event makes the session send or serve, in order. */
  function Emits(s: Session, ev: Event): seq<Out> {
    if s.closed then [] else
    match ev
    case Advertised(adv) => if JoinsNow(s, ev) then [Join(Some(s.refs + 1), OfferOf(s.offered, adv))] else []
    case DeadlinePasses => if JoinsNow(s, ev) then [Join(Some(s.refs + 1), OfferOf(s.offered, None))] else []
    case Reply(reference, ok, list) =>
      if reference == s.joinRef && ok then Confirms(Wanted(s.offered, list)) else []
    case Pushed(event, payload) =>
      var incoming := Interpret(s.attached, event, payload);
      if incoming.Some? then [Serve(incoming.value)] else []
    case FlushTick(waiting) => if LOGGING in s.attached && waiting then [SendLogs] else []
    case DeviceJoined => []
    case OtherSend => []
    case ChannelClosed => []
  }

  /** What an event does to the session's own state. */
  function Moved(s: Session, ev: Event): Session {
    if s.closed then s
    else if JoinsNow(s, ev) then s.(refs := s.refs + 1, joinRef := Some(s.refs + 1), joined := true, deadline := false)
    else
      match ev
      case DeviceJoined => s.(deadline := s.deadline || s.offered != [])
      case Reply(reference, ok, list) =>
        if reference == s.joinRef && ok
        then s.(attached := Wanted(s.offered, list), refs := s.refs + |Wanted(s.offered, list)|) else s
      case FlushTick(waiting) => if LOGGING in s.attached && waiting then s.(refs := s.refs + 1) else s
      case OtherSend => s.(refs := s.refs + 1)
      case ChannelClosed => s.(attached := [], closed := true)
      case _ => s
  }

  function Step(s: Session, ev: Event): Session {
    Moved(s, ev).(outs := s.outs + Emits(s, ev))
  }

  function Run(s: Session, evs: seq<Event>): Session {
    if evs == [] then s else Step(Run(s, evs[..|evs| - 1]), evs[|evs| - 1])
  }

  /** The session loop's arms, and the link and extensions they drive. */
  class SessionLoop {
    const extensions: Extensions
    var refs: nat
    var joinRef: Ref
    var joined: bool
    var deadline: bool
    var closed: bool
    var outs: seq<Out>

    function Value(): Session
      reads this, extensions
    {
      Session(extensions.offered, extensions.attached, refs, joinRef, joined, deadline, closed, outs)
    }

    constructor (config: Config)
      ensures Value() == NewSession(OfferedBy(config))
      ensures fresh(extensions)
    {
      extensions := new Extensions(config);
      refs, joinRef, joined, deadline, closed, outs := 0, None, false, false, false, [];
    }

    method JoinExtensions(advertisement: Option<Json>)
      modifies this
      ensures Value() == old(Value()).(refs := old(refs) + 1, joinRef := Some(old(refs) + 1),
                outs := old(outs) + [Join(Some(old(refs) + 1), OfferOf(extensions.offered, advertisement))])
    {
      refs := refs + 1;
      joinRef := Some(refs);
      outs := outs + [Join(joinRef, extensions.JoinPayload(advertisement))];
    }

    method OnAdvertisement(advertisement: Option<Json>)
      requires !closed
      modifies this
      ensures Value() == Step(old(Value()), Advertised(advertisement))
    {
      if !joined {
        joined := true;
        deadline := false;
        JoinExtensions(advertisement);
      }
    }

    method OnDeadline()
      requires !closed && deadline
      modifies this
      ensures Value() == Step(old(Value()), DeadlinePasses)
    {
      if !joined {
        joined := true;
        deadline := false;
        JoinExtensions(None);
      }
    }

    method OnReply(reference: Ref, ok: bool, list: seq<string>)
      requires !closed
      modifies this, extensions
      ensures Value() == Step(old(Value()), Reply(reference, ok, list))
    {
      if reference != joinRef || !ok {
        return;
      }
      var confirmations := extensions.Attach(list);
      for i := 0 to |confirmations|
        invariant confirmations == extensions.attached == Wanted(extensions.offered, list)
        invariant Value() == old(Value()).(attached := confirmations, refs := old(refs) + i,
                                           outs := old(outs) + Confirms(confirmations)[..i])
      {
        refs := refs + 1;
        outs := outs + [Confirm(confirmations[i])];
      }
    }

    method OnPush(event: string, payload: Json)
      requires !closed
      modifies this`outs
      ensures Value() == Step(old(Value()), Pushed(event, payload))
    {
      var incoming := extensions.Handle(event, payload);
      if incoming.Some? {
        outs := outs + [Serve(incoming.value)];
      }
    }

    method OnFlushTick(waiting: bool)
      requires !closed
      modifies this
      ensures Value() == Step(old(Value()), FlushTick(waiting))
    {
      if LOGGING in extensions.attached && waiting {
        refs := refs + 1;
        outs := outs + [SendLogs];
      }
    }

    method OnDeviceJoined()
      requires !closed
      modifies this`deadline
      ensures Value() == Step(old(Value()), DeviceJoined)
    {
      if extensions.offered != [] {
        deadline := true;
      }
    }

    method OnChannelClosed()
      requires !closed
      modifies this, extensions
      ensures Value() == Step(old(Value()), ChannelClosed)
    {
      extensions.Reset();
      closed := true;
    }
  }

  function Joins(outs: seq<Out>): nat {
    if outs == [] then 0 else Joins(outs[..|outs| - 1]) + if outs[|outs| - 1].Join? then 1 else 0
  }

  lemma {:induction false} JoinsAdds(outs: seq<Out>, more: seq<Out>)
    ensures Joins(outs + more) == Joins(outs) + Joins(more)
  {
    if more == [] {
      assert outs + more == outs;
    } else {
      assert (outs + more)[..|outs + more| - 1] == outs + more[..|more| - 1];
      JoinsAdds(outs, more[..|more| - 1]);
    }
  }

  lemma {:induction false} ConfirmsAreNoJoins(keys: seq<string>)
    ensures Joins(Confirms(keys)) == 0
  {
    if keys != [] {
      assert Confirms(keys)[..|keys| - 1] == Confirms(keys[..|keys| - 1]);
      ConfirmsAreNoJoins(keys[..|keys| - 1]);
    }
  }

  /**
    The last attach list the session accepted: a reply counts when its reference is the join's and
    the channel has not closed.
  */
  function LatestList(s: Session, evs: seq<Event>): seq<string> {
    if evs == [] then []
    else
      var before := Run(s, evs[..|evs| - 1]);
      match evs[|evs| - 1]
      case Reply(reference, ok, list) =>
        if !before.closed && ok && reference == before.joinRef then list else LatestList(s, evs[..|evs| - 1])
      case ChannelClosed => []
      case _ => LatestList(s, evs[..|evs| - 1])
  }

  predicate Allowed(offered: seq<string>, list: seq<string>, key: string) {
    key in offered && key in list
  }

  /** One event: a reply that counts replaces what is attached, a close empties it, nothing else touches it. */
  lemma AttachedAfter(s: Session, ev: Event)
    ensures var counts := ev.Reply? && !s.closed && ev.ok && ev.reference == s.joinRef;
            Moved(s, ev).attached == if counts then Wanted(s.offered, ev.list)
                                     else if ev.ChannelClosed? && !s.closed then [] else s.attached
  {
  }

  /** In every session the attached keys are those of the latest list that this agent offers. */
  lemma {:induction false} AttachedIsLatest(offered: seq<string>, evs: seq<Event>)
    ensures var s := Run(NewSession(offered), evs);
            && s.offered == offered
            && (s.closed ==> s.attached == [])
            && (forall key :: key in s.attached <==> !s.closed && Allowed(offered, LatestList(NewSession(offered), evs), key))
  {
    if evs != [] {
      var last := evs[|evs| - 1];
      AttachedIsLatest(offered, evs[..|evs| - 1]);
      AttachedAfter(Run(NewSession(offered), evs[..|evs| - 1]), last);
    }
  }

  /**
    Whatever a session serves, ships or confirms is for a key that config enables and the latest
    attach list names.
  */
  lemma ServesOnlyWhatBothWant(config: Config, evs: seq<Event>, ev: Event, o: Out)
    requires o in Emits(Run(NewSession(OfferedBy(config)), evs), ev)
    ensures var list := LatestList(NewSession(OfferedBy(config)), evs);
            && (o.Serve? ==> Enabled(config, KeyOf(o.incoming)) && KeyOf(o.incoming) in list)
            && (o.SendLogs? ==> Enabled(config, LOGGING) && LOGGING in list)
            && (o.Confirm? ==> ev.Reply? && Enabled(config, o.key) && o.key in ev.list)
  {
    AttachedIsLatest(OfferedBy(config), evs);
  }

  predicate JoinsOnce(s: Session) {
    Joins(s.outs) == (if s.joined then 1 else 0) && (s.joined <==> s.joinRef.Some?)
  }

  lemma StepJoinsOnce(s: Session, ev: Event)
    requires JoinsOnce(s)
    ensures JoinsOnce(Step(s, ev))
  {
    var out := Emits(s, ev);
    JoinsAdds(s.outs, out);
    if !s.closed && ev.Reply? {
      ConfirmsAreNoJoins(Wanted(s.offered, ev.list));
    } else if |out| == 1 {
      assert out[..0] == [];
      assert Joins(out) == if out[0].Join? then 1 else 0;
    }
  }

  /** However advertisements and the deadline interleave, one join is sent or none. */
  lemma {:induction false} AtMostOneJoin(offered: seq<string>, evs: seq<Event>)
    ensures JoinsOnce(Run(NewSession(offered), evs))
  {
    if evs != [] {
      AtMostOneJoin(offered, evs[..|evs| - 1]);
      StepJoinsOnce(Run(NewSession(offered), evs[..|evs| - 1]), evs[|evs| - 1]);
    }
  }

  // ---- When a join goes out, and what it offers ------------------------------------------------

  predicate StaysOpen(evs: seq<Event>) {
    ChannelClosed !in evs
  }

  /** The event at `i` finds the channel open and asks for the join: an advertisement, or a deadline that was set. */
  predicate AsksToJoin(offered: seq<string>, evs: seq<Event>, i: nat)
    requires i < |evs|
  {
    && StaysOpen(evs[..i])
    && (evs[i].Advertised? || (evs[i].DeadlinePasses? && offered != [] && DeviceJoined in evs[..i]))
  }

  lemma InFront<T>(evs: seq<T>, x: T)
    requires evs != []
    ensures x in evs <==> x in evs[..|evs| - 1] || x == evs[|evs| - 1]
  {
    assert evs == evs[..|evs| - 1] + [evs[|evs| - 1]];
  }

  lemma DeadlineAfter(s: Session, ev: Event)
    ensures var s' := Step(s, ev);
            && s'.offered == s.offered && (s'.closed <==> s.closed || ev == ChannelClosed)
            && (s.joined ==> s'.joined)
            && (!s'.closed && !s'.joined ==> (s'.deadline <==> s.deadline || (ev == DeviceJoined && s.offered != [])))
  {
  }

  /** What the events alone say about a session: whether it is closed, and while it is not, whether a deadline is set. */
  lemma {:induction false} DeadlineExactlyWhen(offered: seq<string>, evs: seq<Event>)
    ensures var s := Run(NewSession(offered), evs);
            && s.offered == offered && (s.closed <==> !StaysOpen(evs))
            && (!s.closed && !s.joined ==> (s.deadline <==> offered != [] && DeviceJoined in evs))
  {
    if evs != [] {
      DeadlineExactlyWhen(offered, evs[..|evs| - 1]);
      DeadlineAfter(Run(NewSession(offered), evs[..|evs| - 1]), evs[|evs| - 1]);
      InFront(evs, ChannelClosed);
      InFront(evs, DeviceJoined);
    }
  }

  lemma {:induction false} AskedJoins(offered: seq<string>, evs: seq<Event>, i: nat)
    requires i < |evs| && AsksToJoin(offered, evs, i)
    ensures Run(NewSession(offered), evs).joined
  {
    var n := |evs| - 1;
    var front := evs[..n];
    DeadlineExactlyWhen(offered, front);
    if i < n {
      assert front[..i] == evs[..i] && front[i] == evs[i];
      AskedJoins(offered, front, i);
      DeadlineAfter(Run(NewSession(offered), front), evs[n]);
    }
  }

  lemma {:induction false} JoinedWasAsked(offered: seq<string>, evs: seq<Event>) returns (i: nat)
    requires Run(NewSession(offered), evs).joined
    ensures i < |evs| && AsksToJoin(offered, evs, i)
  {
    var n := |evs| - 1;
    var front := evs[..n];
    if Run(NewSession(offered), front).joined {
      i := JoinedWasAsked(offered, front);
      assert front[..i] == evs[..i] && front[i] == evs[i];
    } else {
      i := n;
      DeadlineExactlyWhen(offered, front);
    }
  }

  /** A session joins the extensions channel exactly when something asked it to. */
  lemma JoinsExactlyWhenAsked(offered: seq<string>, evs: seq<Event>)
    ensures Run(NewSession(offered), evs).joined <==> exists i :: 0 <= i < |evs| && AsksToJoin(offered, evs, i)
  {
    if Run(NewSession(offered), evs).joined {
      var i := JoinedWasAsked(offered, evs);
    }
    if i :| 0 <= i < |evs| && AsksToJoin(offered, evs, i) {
      AskedJoins(offered, evs, i);
    }
  }

  /**
    With nothing enabled the deadline never joins, but an advertisement on an open channel is
    answered with a join all the same, and every such join is empty.
  */
  lemma NothingEnabledStillJoinsWhenAsked(evs: seq<Event>)
    ensures Run(NewSession([]), evs).joined
            <==> exists i :: 0 <= i < |evs| && evs[i].Advertised? && StaysOpen(evs[..i])
    ensures forall o <- Run(NewSession([]), evs).outs :: o.Join? ==> o.offer == map[]
  {
    JoinsExactlyWhenAsked([], evs);
    assert forall i :: 0 <= i < |evs| ==>
        (AsksToJoin([], evs, i) <==> evs[i].Advertised? && StaysOpen(evs[..i]));
    forall o <- Run(NewSession([]), evs).outs | o.Join? ensures o.offer == map[] {
      var i := JoinHasItsCause([], evs, o);
    }
  }

  /** The event a join answers: the first that asked, offering what that event allows. */
  lemma {:induction false} JoinHasItsCause(offered: seq<string>, evs: seq<Event>, o: Out) returns (i: nat)
    requires o in Run(NewSession(offered), evs).outs && o.Join?
    ensures i < |evs| && AsksToJoin(offered, evs, i)
    ensures !Run(NewSession(offered), evs[..i]).joined
    ensures o.offer == OfferOf(offered, if evs[i].Advertised? then evs[i].advertisement else None)
  {
    var n := |evs| - 1;
    var front := evs[..n];
    var before := Run(NewSession(offered), front);
    if o in before.outs {
      i := JoinHasItsCause(offered, front, o);
      assert front[..i] == evs[..i] && front[i] == evs[i];
    } else {
      i := n;
      assert o in Emits(before, evs[n]);
      DeadlineExactlyWhen(offered, front);
    }
  }

  /** A readable advertisement names `key` at a version this agent does not have, or not at all. */
  ghost predicate RulesOut(advertisement: Option<Json>, key: string) {
    && advertisement.Some? && advertisement.value.Object?
    && forall versions :: Field(advertisement.value, key) == Some(Array(versions)) ==> Text(Version(key)) !in versions
  }

  /** The offer is what config enables and the advertisement, if `ev` is one, does not rule out. */
  ghost predicate OffersRightly(config: Config, ev: Event, offer: map<string, string>) {
    && (forall key :: key in offer <==> Enabled(config, key) && (ev.Advertised? ==> !RulesOut(ev.advertisement, key)))
    && (forall key <- offer :: offer[key] == Version(key))
  }

  /** The event at `i` asks for the join, and none went out before it. */
  predicate AsksFirst(offered: seq<string>, evs: seq<Event>, i: nat)
    requires i < |evs|
  {
    AsksToJoin(offered, evs, i) && !Run(NewSession(offered), evs[..i]).joined
  }

  /**
    In every session the one join answers an advertisement or the deadline, whichever came first:
    it offers exactly what config enables and that advertisement does not rule out, each at this
    agent's version, and at the deadline everything enabled.
  */
  lemma OfferIsExact(config: Config, evs: seq<Event>, o: Out)
    requires o in Run(NewSession(OfferedBy(config)), evs).outs && o.Join?
    ensures exists i :: 0 <= i < |evs| && AsksFirst(OfferedBy(config), evs, i) && OffersRightly(config, evs[i], o.offer)
  {
    var i := JoinHasItsCause(OfferedBy(config), evs, o);
    OfferOfIsRight(config, evs[i], o.offer);
    assert AsksFirst(OfferedBy(config), evs, i);
  }

  lemma OfferOfIsRight(config: Config, ev: Event, offer: map<string, string>)
    requires offer == OfferOf(OfferedBy(config), if ev.Advertised? then ev.advertisement else None)
    ensures OffersRightly(config, ev, offer)
  {
    var adv := if ev.Advertised? then ev.advertisement else None;
    var offered := OfferedBy(config);
    forall key ensures key in offer <==> key in offered && (ev.Advertised? ==> !RulesOut(ev.advertisement, key)) {
      OfferingExactlyWhenNotRuledOut(adv, key);
    }
  }

  lemma OfferingExactlyWhenNotRuledOut(adv: Option<Json>, key: string)
    ensures Offering(adv, key) <==> !RulesOut(adv, key)
  {
    if adv.Some? && adv.value.Object? && key in adv.value.fields && adv.value.fields[key].Array? {
      assert Field(adv.value, key) == Some(Array(adv.value.fields[key].items));
    }
  }

  /** The advertisement says which versions of logging the platform has, and 0.1.0 is not one of them. */
  predicate OnlyOlderLogging(advertisement: Option<Json>) {
    && advertisement.Some? && advertisement.value.Object?
    && match Field(advertisement.value, LOGGING)
       case Some(Array(versions)) => Text("0.1.0") !in versions
       case _ => true
  }

  /** Which is why no session offers logging to a platform that advertises only an older one, in time. */
  lemma OlderLoggingIsNotOffered(config: Config, evs: seq<Event>, o: Out)
    requires o in Run(NewSession(OfferedBy(config)), evs).outs && o.Join?
    requires forall ev <- evs :: !ev.DeadlinePasses? && (ev.Advertised? ==> OnlyOlderLogging(ev.advertisement))
    ensures LOGGING !in o.offer
  {
    var i := JoinHasItsCause(OfferedBy(config), evs, o);
    assert evs[i] in evs;
    assert !Offering(evs[i].advertisement, LOGGING);
  }

  /** The last list of an accepting reply that carries no reference; read off the events alone. */
  function LastUnreferenced(evs: seq<Event>): seq<string> {
    if evs == [] then []
    else
      match evs[|evs| - 1]
      case Reply(None, true, list) => list
      case _ => LastUnreferenced(evs[..|evs| - 1])
  }

  lemma {:induction false} AttachedWithoutJoin(offered: seq<string>, evs: seq<Event>, key: string)
    requires StaysOpen(evs) && !Run(NewSession(offered), evs).joined
    ensures key in Run(NewSession(offered), evs).attached <==> Allowed(offered, LastUnreferenced(evs), key)
  {
    if evs != [] {
      var front := evs[..|evs| - 1];
      var before := Run(NewSession(offered), front);
      InFront(evs, ChannelClosed);
      DeadlineAfter(before, evs[|evs| - 1]);
      AttachedWithoutJoin(offered, front, key);
      AtMostOneJoin(offered, front);
      DeadlineExactlyWhen(offered, front);
      AttachedAfter(before, evs[|evs| - 1]);
    }
  }

  /**
    Before the join a reply without a reference matches the missing one: a session that is open and
    was not yet asked to join has attached exactly what such replies named and it offers.
  */
  lemma UnreferencedReplyAttachesBeforeJoin(offered: seq<string>, evs: seq<Event>, key: string)
    requires StaysOpen(evs) && forall i :: 0 <= i < |evs| ==> !AsksToJoin(offered, evs, i)
    ensures key in Run(NewSession(offered), evs).attached <==> Allowed(offered, LastUnreferenced(evs), key)
  {
    JoinsExactlyWhenAsked(offered, evs);
    AttachedWithoutJoin(offered, evs, key);
  }

  // ---- What each event makes of a session, in the platform's own words --------------------------

  /** The versions this agent declares. */
  lemma DeclaredVersions()
    ensures Version("logging") == "0.1.0"
    ensures Version("health") == Version("geo") == "0.0.1"
    ensures Version("network_identity") == Version("local_shell") == "0.0.1"
  {
    assert |"health"| == 6 && |"geo"| == 3 && |"logging"| == 7 && |"network_identity"| == 16 && |"local_shell"| == 11;
  }

  predicate IsRequest(attached: seq<string>, event: string, payload: Json, incoming: Incoming) {
    match incoming
    case HealthCheck => event == "health:check" && "health" in attached
    case LocationRequest => event == "geo:location:request" && "geo" in attached
    case IdentityRequest => event == "network_identity:request" && "network_identity" in attached
    case ShellRequested => event == "local_shell:request_shell" && "local_shell" in attached
    case ShellInput(data) =>
      event == "local_shell:shell_input" && "local_shell" in attached && Field(payload, "data") == Some(Text(data))
    case WindowSize(rows, cols) =>
      && event == "local_shell:window_size" && "local_shell" in attached
      && rows == Cells(Field(payload, "rows"), 24) && cols == Cells(Field(payload, "cols"), 80)
  }

  lemma EventNamesDiffer()
    ensures "health:check"[0] == 'h' && "geo:location:request"[0] == 'g' && "network_identity:request"[0] == 'n'
    ensures |"local_shell:request_shell"| == 25 && |"local_shell:shell_input"| == 23 && |"local_shell:window_size"| == 23
    ensures "local_shell:request_shell"[0] == 'l' && "local_shell:shell_input"[0] == 'l' && "local_shell:window_size"[0] == 'l'
    ensures "local_shell:shell_input"[12] == 's' && "local_shell:window_size"[12] == 'w'
  {
  }

  /** Each event is the request of its name and no other, and only while its extension is attached. */
  lemma RecognisedExactlyWhen(attached: seq<string>, event: string, payload: Json, incoming: Incoming)
    ensures Interpret(attached, event, payload) == Some(incoming) <==> IsRequest(attached, event, payload, incoming)
  {
    EventNamesDiffer();
  }

  /** A terminal's size: a number cut to sixteen bits, and the usual size where none is given. */
  lemma CellsExactly(n: nat, default: nat)
    ensures n < 0x1_0000 ==> Cells(Some(Number(n)), default) == n
    ensures Cells(Some(Number(n + 0x1_0000)), default) == Cells(Some(Number(n)), default)
    ensures Cells(None, default) == default
  {
  }

  /**
    What is kept of a list is its offered keys, in order and as often as they come: nothing of an
    empty list, and of a longer one, what is kept of its beginning and then its last key if offered.
  */
  lemma WantedIsInOrder(offered: seq<string>, list: seq<string>, key: string)
    ensures Wanted(offered, []) == []
    ensures Wanted(offered, list + [key]) == if key in offered then Wanted(offered, list) + [key] else Wanted(offered, list)
  {
    var longer := list + [key];
    assert longer[..|longer| - 1] == list && longer[|longer| - 1] == key;
    assert Wanted(offered, list) + [] == Wanted(offered, list);
  }

  /** When the session sends or serves something. */
  predicate Answers(s: Session, ev: Event, o: Out) {
    && !s.closed
    && match o
       case Join(reference, offer) =>
         && !s.joined && reference == Some(s.refs + 1)
         && ((ev.Advertised? && offer == OfferOf(s.offered, ev.advertisement))
             || (ev.DeadlinePasses? && s.deadline && offer == OfferOf(s.offered, None)))
       case Confirm(key) => ev.Reply? && ev.ok && ev.reference == s.joinRef && key in s.offered && key in ev.list
       case Serve(incoming) => ev.Pushed? && IsRequest(s.attached, ev.event, ev.payload, incoming)
       case SendLogs => ev == FlushTick(true) && "logging" in s.attached
  }

  lemma EmitsExactlyWhen(s: Session, ev: Event, o: Out)
    ensures o in Emits(s, ev) <==> Answers(s, ev, o)
  {
    if ev.Pushed? && o.Serve? {
      RecognisedExactlyWhen(s.attached, ev.event, ev.payload, o.incoming);
    }
    if ev.Reply? && o.Confirm? && o.key in Wanted(s.offered, ev.list) {
      var i :| 0 <= i < |Wanted(s.offered, ev.list)| && Wanted(s.offered, ev.list)[i] == o.key;
      assert Confirms(Wanted(s.offered, ev.list))[i] == o;
    }
  }

  /** A reply to the join attaches its offered keys and confirms exactly those, each once in its place. */
  lemma EachAttachedIsConfirmed(s: Session, list: seq<string>)
    requires !s.closed
    ensures var s' := Step(s, Reply(s.joinRef, true, list));
            && s'.attached == Wanted(s.offered, list)
            && |s'.outs| == |s.outs| + |s'.attached| && s'.outs[..|s.outs|] == s.outs
            && (forall i :: 0 <= i < |s'.attached| ==> s'.outs[|s.outs| + i] == Confirm(s'.attached[i]))
  {
  }

  /** Messages other than those of the extensions channel, while it was open. */
  function OtherSends(evs: seq<Event>): nat {
    if evs == [] then 0
    else OtherSends(evs[..|evs| - 1])
         + if evs[|evs| - 1] == OtherSend && StaysOpen(evs[..|evs| - 1]) then 1 else 0
  }

  function Referenced(outs: seq<Out>): nat {
    if outs == [] then 0 else Referenced(outs[..|outs| - 1]) + if outs[|outs| - 1].Serve? then 0 else 1
  }

  lemma {:induction false} ReferencedAdds(outs: seq<Out>, more: seq<Out>)
    ensures Referenced(outs + more) == Referenced(outs) + Referenced(more)
  {
    if more == [] {
      assert outs + more == outs;
    } else {
      assert (outs + more)[..|outs + more| - 1] == outs + more[..|more| - 1];
      ReferencedAdds(outs, more[..|more| - 1]);
    }
  }

  lemma {:induction false} ConfirmsAreReferenced(keys: seq<string>)
    ensures Referenced(Confirms(keys)) == |keys|
  {
    if keys != [] {
      assert Confirms(keys)[..|keys| - 1] == Confirms(keys[..|keys| - 1]);
      ConfirmsAreReferenced(keys[..|keys| - 1]);
    }
  }

  lemma RefsAfter(s: Session, ev: Event)
    ensures Moved(s, ev).refs == s.refs + Referenced(Emits(s, ev)) + if ev == OtherSend && !s.closed then 1 else 0
  {
    if ev.Reply? {
      ConfirmsAreReferenced(Wanted(s.offered, ev.list));
    }
    var out := Emits(s, ev);
    if |out| == 1 {
      assert out[..|out| - 1] == [];
      assert Referenced([]) == 0;
    }
  }

  /** References are counted up by one for each message, so no two messages of a session share one. */
  lemma {:induction false} RefsCountMessages(offered: seq<string>, evs: seq<Event>)
    ensures var s := Run(NewSession(offered), evs); s.refs == Referenced(s.outs) + OtherSends(evs)
  {
    if evs != [] {
      var front := evs[..|evs| - 1];
      var before := Run(NewSession(offered), front);
      RefsCountMessages(offered, front);
      RefsAfter(before, evs[|evs| - 1]);
      ReferencedAdds(before.outs, Emits(before, evs[|evs| - 1]));
      DeadlineExactlyWhen(offered, front);
    }
  }

  /** The reply a session waits for is the one to the join it sent. */
  lemma {:induction false} JoinRefIsTheJoins(offered: seq<string>, evs: seq<Event>, o: Out)
    requires o in Run(NewSession(offered), evs).outs && o.Join?
    ensures o.reference.Some? && Run(NewSession(offered), evs).joinRef == o.reference
  {
    var front, ev := evs[..|evs| - 1], evs[|evs| - 1];
    var before := Run(NewSession(offered), front);
    if o in before.outs {
      JoinRefIsTheJoins(offered, front, o);
      AtMostOneJoin(offered, front);
    } else {
      assert o in Emits(before, ev);
      EmitsExactlyWhen(before, ev, o);
    }
  }
}
