/**
  The device never boots, and never reports, anything but a whole image, provided installs are
  started under one exact condition.
*/
module SlotSafety {
  import opened Prelude
  import opened BootEnv
  import opened Fwup
  import opened Device
  import opened Rollback

  /** Slot `s` holds a whole image, and the disk records that image's uuid for it. */
  predicate Holds(d: Device, s: Slot) {
    && d.images.At(s).Whole?
    && d.disk.slotUuid.At(s) == Some(d.images.At(s).uuid)
  }

  predicate Overridden(d: Device) {
    d.flash.override.Some? && d.flash.overrideFor == d.disk.uuid
  }

  function AsSet(s: Option<Slot>): set<Slot> {
    if s.Some? then {s.value} else {}
  }

  /**
    The slots that power-ups and power cuts alone can lead into. When `blind`, a power-up may also
    find the disk block unreadable, and then goes by what u-boot itself has stored.
  */
  function MayBoot(d: Device, blind: bool): set<Slot> {
    if Overridden(d) then AsSet(d.flash.override)
    else
      (if RollsBack(d) && (!blind || d.flash.vars.uuid == d.disk.uuid) then {}
       else AsSet(d.disk.active) + (if blind then {A} + AsSet(d.flash.override) else {}))
      + (if d.disk.validated == Some(true) && !d.flash.upgradeAvailable then {} else AsSet(d.disk.previous))
  }

  /** The disk and flash agree on enough for a boot to be decided. */
  predicate Coherent(d: Device) {
    && Counting(d.flash)
    && d.disk.active.Some? && d.disk.uuid.Some?
    && (d.disk.validated == Some(true) || d.disk.validated == Some(false))
    && (d.disk.validated == Some(false) || d.flash.upgradeAvailable ==> d.disk.previous.Some?)
    && (d.flash.upgradeAvailable ==> d.flash.override.None? && d.flash.vars.previous == d.disk.previous)
    && (d.flash.override.Some? ==> d.flash.overrideFor == d.flash.vars.uuid)
  }

  /** What is known about the slot Linux runs from: it is whole, and no boot enters a slot being written. */
  predicate RunsFrom(d: Device, s: Slot, blind: bool)
    requires d.power.Up?
  {
    && Holds(d, s)
    && (d.flash.override.Some? ==> d.flash.override == Some(s))
    && match d.power.task
       case Idle => true
       case Writing(t) => t == s.Other() && t !in MayBoot(d, blind)
       case Written(t, u) => t == s.Other() && t !in MayBoot(d, blind) && d.images.At(t) == Whole(u)
  }

  ghost predicate Inv(d: Device, blind: bool) {
    && Coherent(d)
    && (forall s <- MayBoot(d, blind) :: Holds(d, s))
    && (d.power.Up? ==> d.power.slot.Some? && RunsFrom(d, d.power.slot.value, blind))
  }

  /**
    The disk names the running slot, and a rollback, where one can still happen, would return to
    it too. If blocks may be unreadable the running slot must also be A, unless it is decided
    that the next boot stays on it.
  */
  predicate SafeToInstall(d: Device, blind: bool)
    requires d.power.Up?
  {
    && d.disk.active == d.power.slot
    && (d.flash.upgradeAvailable || (d.disk.validated == Some(false) && !Overridden(d)) ==>
          d.disk.previous == d.power.slot)
    && (blind ==> d.power.slot == Some(A) || Overridden(d)
                  || (RollsBack(d) && d.flash.vars.uuid == d.disk.uuid))
  }

  // ---- MayBoot is exact ---------------------------------------------------------------------

  predicate OnlyBoots(ev: Event, blind: bool) {
    (ev.PowerOn? && (ev.readable || blind)) || ev == CutBoot || ev == PowerOff
  }

  /** Some run of power-ups and power cuts enters `s`. */
  ghost predicate Reaches(d: Device, s: Slot, blind: bool) {
    exists evs: seq<Event> ::
      (forall e <- evs :: OnlyBoots(e, blind)) && evs != [] && Run(d, evs).power == Up(Some(s), Idle)
  }

  lemma {:induction false} RunCuts(d: Device, n: nat)
    ensures Run(d, Repeat(CutBoot, n)) == Cuts(d, n)
    ensures forall e <- Repeat(CutBoot, n) :: OnlyBoots(e, false)
  {
    CutsCount(d, n);
    if n > 0 {
      RunCuts(d, n - 1);
      CutsCount(d, n - 1);
      assert Repeat(CutBoot, n)[..n - 1] == Repeat(CutBoot, n - 1);
    }
  }

  lemma {:induction false} RunFrom(d: Device, ev: Event, evs: seq<Event>)
    ensures Run(d, [ev] + evs) == Run(Step(d, ev), evs)
  {
    var all := [ev] + evs;
    if evs == [] {
      assert all[..0] == [];
      assert Run(d, all[..0]) == d;
    } else {
      assert all[..|all| - 1] == [ev] + evs[..|evs| - 1];
      RunFrom(d, ev, evs[..|evs| - 1]);
    }
  }

  lemma ReachesNow(d: Device, ev: Event, s: Slot, blind: bool)
    requires OnlyBoots(ev, blind) && Step(d, ev).power == Up(Some(s), Idle)
    ensures Reaches(d, s, blind)
  {
    RunFrom(d, ev, []);
    assert [ev] + [] == [ev];
    assert Run(d, [ev]).power == Up(Some(s), Idle);
  }

  lemma ReachesLater(d: Device, ev: Event, s: Slot, blind: bool)
    requires OnlyBoots(ev, blind) && Reaches(Step(d, ev), s, blind)
    ensures Reaches(d, s, blind)
  {
    var evs: seq<Event> :| (forall e <- evs :: OnlyBoots(e, blind)) && evs != []
                           && Run(Step(d, ev), evs).power == Up(Some(s), Idle);
    RunFrom(d, ev, evs);
    assert forall e <- [ev] + evs :: OnlyBoots(e, blind);
  }

  lemma BootStaysIn(d: Device, ev: Event, blind: bool)
    requires Coherent(d) && OnlyBoots(ev, blind)
    ensures var d' := Step(d, ev);
            && Coherent(d') && MayBoot(d', blind) <= MayBoot(d, blind)
            && d'.disk == d.disk && d'.images == d.images
            && (ev.PowerOn? ==> d'.power.slot.Some? && d'.power.slot.value in MayBoot(d, blind)
                                && (d'.flash.override.Some? ==> d'.flash.override == d'.power.slot))
  {
  }

  /** Any run of power-ups and cuts enters only slots of `MayBoot`. */
  lemma {:induction false} OnlyMayBoot(d: Device, evs: seq<Event>, blind: bool)
    requires Coherent(d)
    requires forall e <- evs :: OnlyBoots(e, blind)
    ensures var d' := Run(d, evs);
            && Coherent(d') && MayBoot(d', blind) <= MayBoot(d, blind)
            && d'.disk == d.disk && d'.images == d.images
            && (evs != [] && evs[|evs| - 1].PowerOn? ==>
                  d'.power.Up? && d'.power.slot.Some? && d'.power.slot.value in MayBoot(d, blind))
  {
    if evs != [] {
      var n := |evs| - 1;
      OnlyMayBoot(d, evs[..n], blind);
      BootStaysIn(Run(d, evs[..n]), evs[n], blind);
    }
  }

  /** An armed counter can always be driven past its limit by cuts, and then the previous slot is entered. */
  lemma CutsReachPrevious(d: Device, blind: bool)
    requires Coherent(d) && d.flash.upgradeAvailable
    ensures Reaches(d, d.disk.previous.value, blind)
  {
    var cuts := Repeat(CutBoot, BOOTLIMIT);
    RunCuts(d, BOOTLIMIT);
    CutsCount(d, BOOTLIMIT);
    var cut := Cuts(d, BOOTLIMIT);
    RollbackFires(cut, 0, d.disk.previous.value);
    var evs := cuts + [PowerOn(true, 0)];
    assert evs[..|evs| - 1] == cuts;
    assert Run(d, evs).power == Up(d.disk.previous, Idle);
  }

  /** And each slot of `MayBoot` really is entered by some such run. */
  lemma MayBootIsReached(d: Device, s: Slot, blind: bool)
    requires Coherent(d) && s in MayBoot(d, blind)
    ensures Reaches(d, s, blind)
  {
    var on, off := PowerOn(true, 0), PowerOn(false, 0);
    var d1 := Step(d, on);
    BootStaysIn(d, on, blind);
    if d1.power == Up(Some(s), Idle) {
      ReachesNow(d, on, s, blind);
    } else if d.disk.previous == Some(s) && d.flash.upgradeAvailable {
      CutsReachPrevious(d, blind);
    } else if d.disk.previous == Some(s) && d1.flash.upgradeAvailable {
      CutsReachPrevious(d1, blind);
      ReachesLater(d, on, s, blind);
    } else {
      UnreadableReaches(d, s);
    }
  }

  /** The slots only an unreadable block leads to: in one power-up, or after one readable one. */
  lemma UnreadableReaches(d: Device, s: Slot)
    requires Coherent(d) && s in MayBoot(d, true)
    requires Step(d, PowerOn(true, 0)).power != Up(Some(s), Idle)
    requires d.disk.previous != Some(s) || (!d.flash.upgradeAvailable && d.disk.validated == Some(true))
    ensures Reaches(d, s, true)
  {
    var on, off := PowerOn(true, 0), PowerOn(false, 0);
    BootStaysIn(d, off, true);
    BootStaysIn(d, on, true);
    if Step(d, off).power == Up(Some(s), Idle) {
      ReachesNow(d, off, s, true);
    } else if RollsBack(d) {
      var d1 := Step(d, off);
      BootStaysIn(d1, on, true);
      if Step(d1, on).power == Up(Some(s), Idle) {
        ReachesNow(d1, on, s, true);
      } else {
        ReachesNow(Step(d1, on), off, s, true);
        ReachesLater(d1, on, s, true);
      }
      ReachesLater(d, off, s, true);
    } else {
      ReachesNow(Step(d, on), off, s, true);
      ReachesLater(d, on, s, true);
    }
  }

  /** So the set is exact. */
  lemma ReachesExactlyMayBoot(d: Device, s: Slot, blind: bool)
    requires Coherent(d)
    ensures Reaches(d, s, blind) <==> s in MayBoot(d, blind)
  {
    if s in MayBoot(d, blind) {
      MayBootIsReached(d, s, blind);
    }
    if Reaches(d, s, blind) {
      var evs: seq<Event> :| (forall e <- evs :: OnlyBoots(e, blind)) && evs != []
                             && Run(d, evs).power == Up(Some(s), Idle);
      assert OnlyBoots(evs[|evs| - 1], blind) && evs[|evs| - 1].PowerOn?;
      OnlyMayBoot(d, evs, blind);
    }
  }

  // ---- When an install may start ------------------------------------------------------------

  lemma SafeStartKeepsInv(d: Device, blind: bool)
    requires Inv(d, blind) && d.power.Up? && d.power.task == Idle && SafeToInstall(d, blind)
    ensures Inv(Step(d, StartInstall), blind)
  {
    var d' := Step(d, StartInstall);
    assert MayBoot(d', blind) == MayBoot(d, blind);
    assert d.disk.active.value.Other() !in MayBoot(d, blind);
  }

  /**
    Once an install has begun, the running image and every image that boots and cuts can lead
    into are whole exactly when the condition held: for readable blocks, and for all blocks.
  */
  lemma InstallIsSafeExactlyWhen(d: Device, blind: bool)
    requires Inv(d, blind) && d.power.Up? && d.power.task == Idle
    ensures var d' := Step(d, StartInstall);
            (Holds(d', d.power.slot.value) && forall s :: Reaches(d', s, blind) ==> Holds(d', s))
            <==> SafeToInstall(d, blind)
  {
    var d' := Step(d, StartInstall);
    var t := d.disk.active.value.Other();
    assert MayBoot(d', blind) == MayBoot(d, blind) && Coherent(d');
    if SafeToInstall(d, blind) {
      SafeStartKeepsInv(d, blind);
      forall s | Reaches(d', s, blind) ensures Holds(d', s) {
        ReachesExactlyMayBoot(d', s, blind);
      }
    } else {
      UnsafeInstallCanBrick(d, blind);
    }
  }

  /** Outside that condition some run of cuts and boots ends up in a half-written slot, if it is not running already. */
  lemma UnsafeInstallCanBrick(d: Device, blind: bool)
    requires Inv(d, blind) && d.power.Up? && d.power.task == Idle && !SafeToInstall(d, blind)
    ensures var d' := Step(d, StartInstall);
            || d'.images.At(d.power.slot.value) == Partial
            || exists s :: Reaches(d', s, blind) && d'.images.At(s) == Partial
  {
    var d' := Step(d, StartInstall);
    var t := d.disk.active.value.Other();
    if t != d.power.slot.value {
      assert MayBoot(d', blind) == MayBoot(d, blind);
      assert t in MayBoot(d', blind);
      MayBootIsReached(d', t, blind);
    }
  }

  /**
    An install begun under the readable condition and met by one unreadable block: a whole image
    boots exactly when slot A is running, or u-boot itself has decided on the running slot.
  */
  lemma UnreadableBootIsWholeExactlyWhen(d: Device, idle: nat)
    requires Inv(d, false) && d.power.Up? && d.power.task == Idle && SafeToInstall(d, false)
    ensures var d' := Step(Step(d, StartInstall), PowerOn(false, idle));
            && d'.power.slot.Some?
            && (Holds(d', d'.power.slot.value)
                <==> d.power.slot == Some(A) || d.flash.override.Some? || RollsBack(d))
  {
  }

  lemma ReadableIsASpecialCase(d: Device)
    requires Inv(d, true)
    ensures Inv(d, false) && (d.power.Up? && SafeToInstall(d, true) ==> SafeToInstall(d, false))
  {
    assert MayBoot(d, false) <= MayBoot(d, true);
  }

  /** From the factory: a second install started without an agent restart overwrites the running slot. */
  lemma SecondInstallOverwritesRunningSlot(first: Uuid, second: Uuid, idle: nat)
    ensures var d := Run(NewDevice(first),
                         [PowerOn(true, idle), StartInstall, WriteRest(second), FinishInstall, StartInstall]);
            d.power.Up? && d.power.slot == Some(A) && d.images.a == Partial
  {
    var on, start, rest, finish := PowerOn(true, idle), StartInstall, WriteRest(second), FinishInstall;
    var d := NewDevice(first);
    assert [on, start, rest, finish, start] == [on] + ([start] + ([rest] + ([finish] + ([start] + []))));
    RunFrom(d, on, [start] + ([rest] + ([finish] + ([start] + []))));
    var up := Step(d, on);
    RunFrom(up, start, [rest] + ([finish] + ([start] + [])));
    var begun := Step(up, start);
    RunFrom(begun, rest, [finish] + ([start] + []));
    var written := Step(begun, rest);
    RunFrom(written, finish, [start] + []);
    RunFrom(Step(written, finish), start, []);
    assert up.power == Up(Some(A), Idle) && begun.power.task == Writing(B);
    assert Step(written, finish).disk.active == Some(B);
  }

  // ---- Whole runs ---------------------------------------------------------------------------

  /** Installs started only when safe, and only readable boots unless `blind`; everything else at any time. */
  predicate Disciplined(d: Device, ev: Event, blind: bool) {
    && (ev.PowerOn? ==> ev.readable || blind)
    && (ev.StartInstall? && d.power.Up? && d.power.task == Idle ==> SafeToInstall(d, blind))
  }

  predicate DisciplinedRun(d: Device, evs: seq<Event>, blind: bool) {
    evs == [] ||
    (DisciplinedRun(d, evs[..|evs| - 1], blind) && Disciplined(Run(d, evs[..|evs| - 1]), evs[|evs| - 1], blind))
  }

  lemma FinishKeepsInv(d: Device, blind: bool)
    requires Inv(d, blind) && d.power.Up? && d.power.task.Written?
    ensures Inv(Step(d, FinishInstall), blind)
  {
    var d' := Step(d, FinishInstall);
    var s := d.power.slot.value;
    var t := d.power.task.target;
    assert Holds(d', t) && Holds(d', s);
    assert d.flash.upgradeAvailable ==> d.disk.previous.value in MayBoot(d, blind);
  }

  lemma CorrectionKeepsInv(d: Device, corrected: bool, blind: bool)
    requires Inv(d, blind) && d.power.Up?
    ensures Inv(Step(d, AgentStart(corrected)), blind)
  {
    var d' := Step(d, AgentStart(corrected));
    assert forall s <- MayBoot(d', blind) :: s in MayBoot(d, blind) || s == d.power.slot.value;
  }

  lemma StepKeepsInv(d: Device, ev: Event, blind: bool)
    requires Inv(d, blind) && Disciplined(d, ev, blind)
    ensures Inv(Step(d, ev), blind)
  {
    var d' := Step(d, ev);
    if OnlyBoots(ev, blind) {
      BootStaysIn(d, ev, blind);
      assert forall s :: Holds(d', s) == Holds(d, s);
    } else if d.power.Up? {
      match ev
      case AgentStart(corrected) => CorrectionKeepsInv(d, corrected, blind);
      case StartInstall =>
        if d.power.task == Idle {
          SafeStartKeepsInv(d, blind);
        }
      case WriteRest(u) => assert MayBoot(d', blind) == MayBoot(d, blind);
      case FinishInstall =>
        if d.power.task.Written? {
          FinishKeepsInv(d, blind);
        }
      case Validate => assert MayBoot(d', blind) <= MayBoot(d, blind);
    }
  }

  lemma NewDeviceInv(uuid: Uuid, blind: bool)
    ensures Inv(NewDevice(uuid), blind)
  {
  }

  /**
    In every disciplined run from the factory: whatever boots is a whole image, and the agent
    reports the uuid of exactly that image, also while the disk still names a slot that failed.
  */
  lemma {:induction false} RunsAndReportsWholeImages(uuid: Uuid, evs: seq<Event>, blind: bool)
    requires DisciplinedRun(NewDevice(uuid), evs, blind)
    ensures var d := Run(NewDevice(uuid), evs);
            && Inv(d, blind)
            && (forall s :: Reaches(d, s, blind) ==> Holds(d, s))
            && (d.power.Up? ==>
                  d.images.At(Rooted(d.power.slot)).Whole?
                  && CurrentUuid(d.disk, d.power.slot) == Some(d.images.At(Rooted(d.power.slot)).uuid))
  {
    var d := Run(NewDevice(uuid), evs);
    if evs == [] {
      NewDeviceInv(uuid, blind);
    } else {
      RunsAndReportsWholeImages(uuid, evs[..|evs| - 1], blind);
      StepKeepsInv(Run(NewDevice(uuid), evs[..|evs| - 1]), evs[|evs| - 1], blind);
    }
    forall s | Reaches(d, s, blind) ensures Holds(d, s) {
      ReachesExactlyMayBoot(d, s, blind);
    }
  }

  // ---- Installs that do not finish, and finished ones that are taken back ---------------------

  lemma {:induction false} ImagesDoNotDecideBoots(d: Device, d': Device, evs: seq<Event>)
    requires d'.disk == d.disk && d'.flash == d.flash
    requires forall e <- evs :: OnlyBoots(e, true)
    ensures var r, r' := Run(d, evs), Run(d', evs);
            && r'.disk == r.disk && r'.flash == r.flash
            && r.images == d.images && r'.images == d'.images
            && (evs != [] ==> r'.power == r.power)
  {
    if evs != [] {
      assert OnlyBoots(evs[|evs| - 1], true);
      ImagesDoNotDecideBoots(d, d', evs[..|evs| - 1]);
    }
  }

  /**
    An install that stops before its on-finish block leaves every later boot as it was, whatever
    cuts and unreadable blocks come, and the running image too unless the disk names the other slot.
  */
  lemma UnfinishedInstallChangesNothingThatRuns(d: Device, uuid: Uuid, whole: bool, evs: seq<Event>)
    requires d.power.Up? && d.power.task == Idle && d.power.slot.Some?
    requires forall e <- evs :: OnlyBoots(e, true)
    ensures var begun := Step(d, StartInstall);
            var d' := if whole then Step(begun, WriteRest(uuid)) else begun;
            && Run(d', evs).disk == Run(d, evs).disk && Run(d', evs).flash == Run(d, evs).flash
            && (evs != [] ==> Run(d', evs).power == Run(d, evs).power)
            && (d.disk.active == d.power.slot ==>
                  Run(d', evs).images.At(d.power.slot.value) == d.images.At(d.power.slot.value))
            && (d.disk.active.Some? && d.disk.active != d.power.slot ==>
                  begun.images.At(d.power.slot.value) == Partial)
  {
    var begun := Step(d, StartInstall);
    ImagesDoNotDecideBoots(d, if whole then Step(begun, WriteRest(uuid)) else begun, evs);
  }

  /** What can come between an on-finish block and the next completed boot. */
  predicate BeforeBoot(ev: Event) {
    ev.AgentStart? || ev == Validate || ev == CutBoot || ev == PowerOff
  }

  predicate StaysUp(evs: seq<Event>) {
    CutBoot !in evs && PowerOff !in evs
  }

  /** An agent starts, and its correction is written, before power is lost. */
  predicate Corrects(evs: seq<Event>) {
    evs != [] && (Corrects(evs[..|evs| - 1]) || (evs[|evs| - 1] == AgentStart(true) && StaysUp(evs[..|evs| - 1])))
  }

  function CutsIn(evs: seq<Event>): nat {
    if evs == [] then 0 else CutsIn(evs[..|evs| - 1]) + if evs[|evs| - 1] == CutBoot then 1 else 0
  }

  /** The countdown of an armed counter has run out after the cuts in `evs`. */
  predicate RunsOut(flash: Env, evs: seq<Event>) {
    flash.upgradeAvailable && BOOTLIMIT < flash.bootcount + CutsIn(evs) + 1
  }

  /**
    Whether a finished install of `u` in slot `t` can still be entered: there is no record of a
    rollback from the same firmware, the environment was not corrected, and the countdown has not
    run out. Where blocks may be unreadable a correction does not keep slot A out, nor a countdown
    that u-boot holds against other firmware.
  */
  predicate CanBeEntered(flash: Env, t: Slot, u: Uuid, evs: seq<Event>, blind: bool) {
    && !(flash.override.Some? && flash.overrideFor == Some(u))
    && (!Corrects(evs) || (blind && t == A))
    && (!RunsOut(flash, evs) || (blind && flash.vars.uuid != Some(u)))
  }

  lemma StaysUpThen(evs: seq<Event>, ev: Event)
    ensures StaysUp(evs + [ev]) <==> StaysUp(evs) && ev != CutBoot && ev != PowerOff
  {
    assert ev in evs + [ev];
  }

  lemma {:induction false} AfterFinish(d: Device, s: Slot, evs: seq<Event>)
    requires d.power.Up? && d.power.slot == Some(s) && d.power.task.Written?
    requires forall e <- evs :: BeforeBoot(e)
    ensures var r := Run(Step(d, FinishInstall), evs);
            && r.disk == Upgraded(d.disk, d.power.task.target, d.power.task.uuid).(
                           active := if Corrects(evs) then Some(s) else Some(d.power.task.target),
                           validated := r.disk.validated)
            && r.flash == (if d.flash.upgradeAvailable
                           then d.flash.(bootcount := d.flash.bootcount + CutsIn(evs)) else d.flash)
            && r.power == if StaysUp(evs) then Up(Some(s), Idle) else Off
  {
    if evs != [] {
      var n := |evs| - 1;
      assert BeforeBoot(evs[n]);
      AfterFinish(d, s, evs[..n]);
      StaysUpThen(evs[..n], evs[n]);
      assert evs == evs[..n] + [evs[n]];
    }
  }

  lemma AfterFinishIsCoherent(d: Device, evs: seq<Event>)
    requires Inv(d, false) && d.power.Up? && d.power.task.Written?
    requires forall e <- evs :: BeforeBoot(e)
    ensures Coherent(Run(Step(d, FinishInstall), evs))
    ensures d.flash.upgradeAvailable ==> d.flash.vars.previous == d.power.slot
  {
    FinishKeepsInv(d, false);
    BeforeBootKeepsCoherent(Step(d, FinishInstall), evs, d.power.slot.value);
    assert d.flash.upgradeAvailable ==> d.disk.previous.value in MayBoot(d, false);
  }

  lemma {:induction false} BeforeBootKeepsCoherent(d: Device, evs: seq<Event>, s: Slot)
    requires Coherent(d) && (d.power.Up? ==> d.power.slot == Some(s))
    requires forall e <- evs :: BeforeBoot(e)
    ensures var r := Run(d, evs); Coherent(r) && (r.power.Up? ==> r.power.slot == Some(s))
  {
    if evs != [] {
      assert BeforeBoot(evs[|evs| - 1]);
      BeforeBootKeepsCoherent(d, evs[..|evs| - 1], s);
    }
  }

  /**
    The boot after a finished install enters the new firmware exactly when: on a readable block,
    the install can still be entered; on an unreadable one, it is in slot A and u-boot has neither
    an override nor a rollback to carry out.
  */
  lemma FinishedInstallIsEnteredExactlyWhen(d: Device, evs: seq<Event>, readable: bool, idle: nat)
    requires Inv(d, false) && d.power.Up? && d.power.task.Written?
    requires forall e <- evs :: BeforeBoot(e)
    ensures var d' := Step(Run(Step(d, FinishInstall), evs), PowerOn(readable, idle));
            var t := d.power.task.target;
            d'.power == Up(Some(t), Idle)
            <==> if readable then CanBeEntered(d.flash, t, d.power.task.uuid, evs, false)
                 else t == A && d.flash.override.None? && !RunsOut(d.flash, evs)
  {
    AfterFinish(d, d.power.slot.value, evs);
    AfterFinishIsCoherent(d, evs);
  }

  /** And some run of boots and cuts enters it exactly when it can still be entered. */
  lemma FinishedInstallCanBeEnteredExactlyWhen(d: Device, evs: seq<Event>, blind: bool)
    requires Inv(d, false) && d.power.Up? && d.power.task.Written?
    requires forall e <- evs :: BeforeBoot(e)
    ensures var t := d.power.task.target;
            Reaches(Run(Step(d, FinishInstall), evs), t, blind)
            <==> CanBeEntered(d.flash, t, d.power.task.uuid, evs, blind)
  {
    AfterFinish(d, d.power.slot.value, evs);
    AfterFinishIsCoherent(d, evs);
    ReachesExactlyMayBoot(Run(Step(d, FinishInstall), evs), d.power.task.target, blind);
  }

  /** Nothing but `s` can be entered any more. */
  predicate StaysOn(d: Device, s: Slot, blind: bool) {
    && Coherent(d) && MayBoot(d, blind) <= {s}
    && (d.power.Up? ==> d.power == Up(Some(s), Idle))
  }

  lemma {:induction false} StaysOnForGood(d: Device, evs: seq<Event>, s: Slot, blind: bool)
    requires StaysOn(d, s, blind)
    requires forall e <- evs :: BeforeBoot(e) || OnlyBoots(e, blind)
    ensures StaysOn(Run(d, evs), s, blind)
  {
    if evs != [] {
      var n := |evs| - 1;
      StaysOnForGood(d, evs[..n], s, blind);
      StaysOnNext(Run(d, evs[..n]), evs[n], s, blind);
    }
  }

  lemma StaysOnNext(d: Device, ev: Event, s: Slot, blind: bool)
    requires StaysOn(d, s, blind) && (BeforeBoot(ev) || OnlyBoots(ev, blind))
    ensures StaysOn(Step(d, ev), s, blind)
  {
    if OnlyBoots(ev, blind) {
      BootStaysIn(d, ev, blind);
    } else {
      assert MayBoot(Step(d, ev), blind) <= MayBoot(d, blind) + {s};
    }
  }

  /**
    An install that can no longer be entered never is: no run of boots, cuts, agent restarts and
    validations leaves the old slot again.
  */
  lemma UndoneInstallIsNeverEntered(d: Device, evs: seq<Event>, later: seq<Event>, blind: bool)
    requires Inv(d, false) && d.power.Up? && d.power.task.Written?
    requires forall e <- evs :: BeforeBoot(e)
    requires !CanBeEntered(d.flash, d.power.task.target, d.power.task.uuid, evs, blind)
    requires forall e <- later :: BeforeBoot(e) || OnlyBoots(e, blind)
    ensures var d' := Run(Run(Step(d, FinishInstall), evs), later);
            d'.power.Up? ==> d'.power == Up(d.power.slot, Idle)
  {
    var s := d.power.slot.value;
    var after := Run(Step(d, FinishInstall), evs);
    AfterFinish(d, s, evs);
    AfterFinishIsCoherent(d, evs);
    FinishedInstallCanBeEnteredExactlyWhen(d, evs, blind);
    ReachesExactlyMayBoot(after, d.power.task.target, blind);
    StaysOnForGood(after, later, s, blind);
  }

  /**
    A finished install is on probation: left alone, it is entered exactly as often as the counter
    allows, and then the slot it was installed from ever after.
  */
  lemma FinishedInstallIsOnProbation(d: Device, n: nat, idle: nat)
    requires Inv(d, false) && d.power.Up? && d.power.task.Written?
    requires !(d.flash.override.Some? && d.flash.overrideFor == Some(d.power.task.uuid))
    ensures var k := Min(n, Attempts(d.flash, idle));
            Entered(Step(d, FinishInstall), n, idle)
            == Repeat(Some(d.power.task.target), k) + Repeat(d.power.slot, n - k)
  {
    ProbationIsExact(Step(d, FinishInstall), n, idle, d.power.task.target, d.power.slot.value);
  }

  /** An agent restart abandons an install: nothing is written any more, and nothing recorded, until another starts. */
  lemma {:induction false} RestartAbandonsInstall(d: Device, corrected: bool, evs: seq<Event>)
    requires d.power.Up? && StartInstall !in evs
    ensures var r := Run(Step(d, AgentStart(corrected)), evs);
            && r.images == d.images && (r.power.Up? ==> r.power.task == Idle)
            && r.disk.uuid == d.disk.uuid && r.disk.previous == d.disk.previous && r.disk.slotUuid == d.disk.slotUuid
  {
    if evs != [] {
      assert evs[|evs| - 1] in evs;
      RestartAbandonsInstall(d, corrected, evs[..|evs| - 1]);
    }
  }

  /** While an install is under way no other starts: until it ends only its own slot is written. */
  lemma {:induction false} InstallKeepsItsTarget(d: Device, t: Slot, evs: seq<Event>)
    requires d.power.Up? && d.power.task == Writing(t)
    requires forall e <- evs :: e == StartInstall || e.WriteRest? || e == Validate
    ensures var r := Run(d, evs);
            && r.power.Up? && !r.power.task.Idle? && r.power.task.target == t
            && r.images.At(t.Other()) == d.images.At(t.Other())
  {
    if evs != [] {
      assert evs[|evs| - 1] in evs;
      InstallKeepsItsTarget(d, t, evs[..|evs| - 1]);
    }
  }

  // ---- Probation where blocks may be unreadable -------------------------------------------------

  /** Power-ups that enter `s` in the course of `evs` before the first that enters `p`. */
  function EntriesBefore(d: Device, evs: seq<Event>, s: Slot, p: Slot): nat
    decreases |evs|
  {
    if evs == [] then 0 else
    var d' := Step(d, evs[0]);
    if evs[0].PowerOn? && d'.power == Up(Some(p), Idle) then 0
    else
      (if evs[0].PowerOn? && d'.power == Up(Some(s), Idle) then 1 else 0) + EntriesBefore(d', evs[1..], s, p)
  }

  /** On probation: no unreadable block enters `s`, because of a rollback that is due, or because it is B. */
  predicate BlindEntersPrevious(d: Device, s: Slot) {
    RollsBack(d) || (s == B && d.flash.override != Some(s))
  }

  lemma BlindBootEntersPrevious(d: Device, idle: nat, s: Slot, p: Slot)
    requires OnProbation(d, s, p) && Coherent(d) && s != p && BlindEntersPrevious(d, s)
    ensures Step(d, PowerOn(false, idle)).power == Up(Some(p), Idle)
  {
    if d.flash.override.Some? {
      assert s == B && p == A && d.flash.override.value == A;
    } else if RollsBack(d) {
      assert d.flash.vars.previous == Some(p);
    } else {
      assert p == A;
    }
  }

  lemma {:induction false} CountdownHolds(d: Device, evs: seq<Event>, s: Slot, p: Slot)
    requires OnProbation(d, s, p) && Coherent(d) && s != p && BlindEntersPrevious(d, s)
    requires forall e <- evs :: OnlyBoots(e, true)
    ensures EntriesBefore(d, evs, s, p) <= Attempts(d.flash, 0)
    decreases |evs|
  {
    if evs != [] {
      var ev := evs[0];
      var d' := Step(d, ev);
      assert OnlyBoots(ev, true);
      BootStaysIn(d, ev, true);
      if ev.PowerOn? && !ev.readable {
        BlindBootEntersPrevious(d, ev.idle, s, p);
      } else if ev.PowerOn? && RollsBack(d) {
        RollbackFires(d, ev.idle, p);
      } else {
        CountdownHolds(d', evs[1..], s, p);
      }
    }
  }

  /** The counter is off and u-boot remembers no rollback, with the unvalidated update in slot `s`. */
  predicate Unarmed(d: Device, s: Slot, p: Slot) {
    OnProbation(d, s, p) && Coherent(d) && !d.flash.upgradeAvailable && d.flash.override.None?
  }

  /** `n` readable power-ups, each followed by an unreadable one. */
  function Alternating(n: nat): seq<Event> {
    if n == 0 then [] else [PowerOn(true, 0), PowerOn(false, 0)] + Alternating(n - 1)
  }

  lemma UnarmedAgain(d: Device, s: Slot, p: Slot)
    requires Unarmed(d, s, p) && s != p
    ensures var d1 := Step(d, PowerOn(true, 0));
            var d2 := Step(d1, PowerOn(false, 0));
            d1.power == Up(Some(s), Idle) && d2.power == Up(Some(A), Idle) && Unarmed(d2, s, p)
  {
    BootStaysIn(d, PowerOn(true, 0), true);
    BootStaysIn(Step(d, PowerOn(true, 0)), PowerOn(false, 0), true);
  }

  lemma EntriesOfTwo(d: Device, first: Event, second: Event, more: seq<Event>, s: Slot, p: Slot)
    requires first.PowerOn? && second.PowerOn? && s != p
    requires Step(d, first).power == Up(Some(s), Idle)
    ensures var d2 := Step(Step(d, first), second);
            var twice := if d2.power == Up(Some(s), Idle) then 2 else 1;
            && Entries(d, [first, second] + more, s) == twice + Entries(d2, more, s)
            && (twice == 2 ==>
                  EntriesBefore(d, [first, second] + more, s, p) == 2 + EntriesBefore(d2, more, s, p))
  {
    var all := [first, second] + more;
    assert all[1..] == [second] + more && all[1..][1..] == more;
  }

  /**
    An unreadable block disarms the counter. Every second power-up finding one, the unvalidated
    slot is entered without end; slot A at every power-up, and the previous slot at none.
  */
  lemma {:induction false} UnreadableBlocksResetTheCountdown(d: Device, n: nat, s: Slot, p: Slot)
    requires Unarmed(d, s, p) && s != p
    ensures forall e <- Alternating(n) :: OnlyBoots(e, true)
    ensures Entries(d, Alternating(n), s) == if s == A then 2 * n else n
    ensures s == A ==> EntriesBefore(d, Alternating(n), s, p) == 2 * n
    decreases n
  {
    if n > 0 {
      var on, off := PowerOn(true, 0), PowerOn(false, 0);
      UnarmedAgain(d, s, p);
      EntriesOfTwo(d, on, off, Alternating(n - 1), s, p);
      UnreadableBlocksResetTheCountdown(Step(Step(d, on), off), n - 1, s, p);
    }
  }

  /** An override of other firmware to `s` itself is carried out at every unreadable block. */
  lemma {:induction false} OverrideReenters(d: Device, n: nat, s: Slot, p: Slot)
    requires Coherent(d) && d.flash.override == Some(s) && s != p
    ensures EntriesBefore(d, Repeat(PowerOn(false, 0), n), s, p) == n
    decreases n
  {
    if n > 0 {
      var off := PowerOn(false, 0);
      BootStaysIn(d, off, true);
      assert Repeat(off, n)[1..] == Repeat(off, n - 1);
      OverrideReenters(Step(d, off), n - 1, s, p);
    }
  }

  lemma CountdownFails(d: Device, s: Slot, p: Slot) returns (evs: seq<Event>)
    requires OnProbation(d, s, p) && Coherent(d) && s != p && !BlindEntersPrevious(d, s)
    ensures forall e <- evs :: OnlyBoots(e, true)
    ensures EntriesBefore(d, evs, s, p) > Attempts(d.flash, 0)
  {
    var n := Attempts(d.flash, 0) + 1;
    var on, off := PowerOn(true, 0), PowerOn(false, 0);
    if d.flash.override == Some(s) {
      evs := Repeat(off, n);
      OverrideReenters(d, n, s, p);
    } else {
      // Slot A, and the first two power-ups enter it too.
      var d1 := Step(d, if d.flash.override.Some? then on else off);
      var d2 := Step(d1, off);
      BootStaysIn(d, if d.flash.override.Some? then on else off, true);
      BootStaysIn(d1, off, true);
      UnreadableBlocksResetTheCountdown(d2, n, s, p);
      var later := [off] + Alternating(n);
      assert later[1..] == Alternating(n);
      evs := [if d.flash.override.Some? then on else off] + later;
      assert evs[1..] == later;
    }
  }

  /**
    Where blocks may be unreadable, an unvalidated slot gets no more than its attempts before the
    previous one is entered exactly when a rollback is due already, or it is slot B and no override
    of other firmware leads into it.
  */
  lemma ProbationIsBoundedExactlyWhen(d: Device, s: Slot, p: Slot)
    requires OnProbation(d, s, p) && Coherent(d) && s != p
    ensures (forall evs :: (forall e <- evs :: OnlyBoots(e, true)) ==>
                             EntriesBefore(d, evs, s, p) <= Attempts(d.flash, 0))
            <==> RollsBack(d) || (s == B && d.flash.override != Some(s))
  {
    if BlindEntersPrevious(d, s) {
      forall evs: seq<Event> | forall e <- evs :: OnlyBoots(e, true)
        ensures EntriesBefore(d, evs, s, p) <= Attempts(d.flash, 0)
      {
        CountdownHolds(d, evs, s, p);
      }
    } else {
      var evs := CountdownFails(d, s, p);
    }
  }
}
