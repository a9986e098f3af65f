/** What the boot counter and the recorded override promise over whole runs. */
module Rollback {
  import opened Prelude
  import opened BootEnv
  import opened Fwup
  import opened Device

  // ---- A rollback outlives the boot that decided it -----------------------------------------

  /** The flash records a rollback to `p`, made against firmware `u`, and counts nothing. */
  predicate RolledBack(flash: Env, p: Slot, u: Option<Uuid>) {
    && !flash.rollback && !flash.upgradeAvailable
    && flash.override == Some(p) && flash.overrideFor == u && flash.vars.uuid == u
  }

  /** The disk names no firmware other than `u`. */
  predicate DiskNames(d: Device, u: Option<Uuid>) {
    d.disk.uuid.Some? ==> d.disk.uuid == u
  }

  /** The next power-up takes the rollback branch. */
  predicate RollsBack(d: Device) {
    d.flash.rollback || Exceeded(d.flash)
  }

  /** Passing the limit on a readable disk boots the previous slot and records it. */
  lemma RollbackFires(d: Device, idle: nat, p: Slot)
    requires RollsBack(d) && d.disk.previous == Some(p)
    ensures var d' := Step(d, PowerOn(true, idle));
            && d'.power == Up(Some(p), Idle)
            && exists u :: RolledBack(d'.flash, p, u) && DiskNames(d', u)
  {
    var d' := Step(d, PowerOn(true, idle));
    var u := Import(d.flash.vars, d.disk).uuid;
    assert RolledBack(d'.flash, p, u) && DiskNames(d', u);
  }

  /** No event of a run meets a disk that names other firmware than `u`. */
  predicate KeepsNaming(d: Device, evs: seq<Event>, u: Option<Uuid>) {
    evs == [] || (KeepsNaming(d, evs[..|evs| - 1], u) && DiskNames(Run(d, evs[..|evs| - 1]), u))
  }

  /**
    For as long as the disk names no other firmware, every power-up enters `p` and the counter
    stays disarmed: whatever cuts, corrections, validations, unreadable blocks and unfinished
    installs come between.
  */
  lemma {:induction false} RollbackIsDurable(d: Device, evs: seq<Event>, p: Slot, u: Option<Uuid>)
    requires RolledBack(d.flash, p, u) && KeepsNaming(d, evs, u)
    ensures var d' := Run(d, evs);
            && RolledBack(d'.flash, p, u) && !RollsBack(d')
            && (evs != [] && evs[|evs| - 1].PowerOn? ==> d'.power == Up(Some(p), Idle))
  {
    if evs != [] {
      RollbackIsDurable(d, evs[..|evs| - 1], p, u);
    }
  }

  /** The record ends exactly when a readable disk names other firmware; that firmware then gets its chance. */
  lemma OverrideEndsWithOtherFirmware(d: Device, idle: nat, p: Slot, u: Option<Uuid>)
    requires RolledBack(d.flash, p, u) && d.disk.uuid.Some?
    ensures var d' := Step(d, PowerOn(true, idle));
            && (RolledBack(d'.flash, p, u) <==> d.disk.uuid == u)
            && (d.disk.uuid != u && d.disk.active.Some? ==>
                  d'.power == Up(d.disk.active, Idle)
                  && (d.disk.validated == Some(false) ==> d'.flash.upgradeAvailable))
  {
  }

  // ---- Probation ----------------------------------------------------------------------------

  /** The counter is armed only together with its limit. */
  predicate Counting(flash: Env) {
    && !flash.rollback
    && (flash.upgradeAvailable ==> flash.bootlimit == BOOTLIMIT)
  }

  /** The disk holds an unvalidated update of slot `s`, replacing `p`, that no override is about. */
  predicate OnProbation(d: Device, s: Slot, p: Slot) {
    && Counting(d.flash)
    && d.disk.active == Some(s) && d.disk.previous == Some(p)
    && d.disk.validated == Some(false) && d.disk.uuid.Some?
    && !(d.flash.override.Some? && d.flash.overrideFor == d.disk.uuid)
  }

  /** How many more boots an unvalidated slot gets. */
  function Attempts(flash: Env, idle: nat): nat {
    if flash.upgradeAvailable
    then (if flash.bootcount < BOOTLIMIT then BOOTLIMIT - flash.bootcount else 0)
    else 1 + (if idle < BOOTLIMIT then BOOTLIMIT - idle else 0)
  }

  /** The slots that `n` power-ups in a row enter. */
  function Entered(d: Device, n: nat, idle: nat): seq<Option<Slot>>
    decreases n
  {
    if n == 0 then [] else
    var d' := Step(d, PowerOn(true, idle));
    [d'.power.slot] + Entered(d', n - 1, idle)
  }

  lemma {:induction false} StaysRolledBack(d: Device, n: nat, idle: nat, p: Slot, u: Option<Uuid>)
    requires RolledBack(d.flash, p, u) && DiskNames(d, u)
    ensures Entered(d, n, idle) == Repeat(Some(p), n)
    decreases n
  {
    if n > 0 {
      var d' := Step(d, PowerOn(true, idle));
      StaysRolledBack(d', n - 1, idle, p, u);
    }
  }

  lemma ProbationGoesOn(d: Device, idle: nat, s: Slot, p: Slot)
    requires OnProbation(d, s, p) && !RollsBack(d)
    ensures var d' := Step(d, PowerOn(true, idle));
            && OnProbation(d', s, p) && d'.power == Up(Some(s), Idle)
            && Attempts(d.flash, idle) == Attempts(d'.flash, idle) + 1
  {
  }

  /**
    Left alone, an unvalidated slot is entered exactly `Attempts` times and the previous one
    ever after.
  */
  lemma {:induction false} ProbationIsExact(d: Device, n: nat, idle: nat, s: Slot, p: Slot)
    requires OnProbation(d, s, p)
    ensures var k := Min(n, Attempts(d.flash, idle));
            Entered(d, n, idle) == Repeat(Some(s), k) + Repeat(Some(p), n - k)
    decreases n
  {
    if n > 0 {
      var d' := Step(d, PowerOn(true, idle));
      if RollsBack(d) {
        OutOfAttempts(d, n, idle, p);
        assert Attempts(d.flash, idle) == 0 && Repeat(Some(s), 0) == [];
      } else {
        ProbationGoesOn(d, idle, s, p);
        ProbationIsExact(d', n - 1, idle, s, p);
        OneMoreBefore(Some(s), Min(n, Attempts(d.flash, idle)), Some(p), n - Min(n, Attempts(d.flash, idle)));
      }
    }
  }

  lemma OneMore<T>(x: T, n: nat)
    requires n > 0
    ensures Repeat(x, n) == [x] + Repeat(x, n - 1)
  {
  }

  lemma OneMoreBefore<T>(x: T, n: nat, y: T, m: nat)
    requires n > 0
    ensures Repeat(x, n) + Repeat(y, m) == [x] + (Repeat(x, n - 1) + Repeat(y, m))
  {
    OneMore(x, n);
    Associate([x], Repeat(x, n - 1), Repeat(y, m));
  }

  lemma OutOfAttempts(d: Device, n: nat, idle: nat, p: Slot)
    requires n > 0 && RollsBack(d) && d.disk.previous == Some(p)
    ensures Entered(d, n, idle) == Repeat(Some(p), n)
  {
    var d' := Step(d, PowerOn(true, idle));
    RollbackFires(d, idle, p);
    var u :| RolledBack(d'.flash, p, u) && DiskNames(d', u);
    StaysRolledBack(d', n - 1, idle, p, u);
    OneMore(Some(p), n);
  }

  /**
    A fresh update on a device whose counter is disarmed: `bootlimit` boots and a rollback when
    u-boot counts the disarmed boot in memory, one more when it does not.
  */
  lemma FreshUpdateGetsItsBoots(d: Device, n: nat, s: Slot, p: Slot)
    requires OnProbation(d, s, p) && !d.flash.upgradeAvailable && n > 3
    ensures Entered(d, n, 1) == Repeat(Some(s), 3) + Repeat(Some(p), n - 3)
    ensures Entered(d, n, 0) == Repeat(Some(s), 4) + Repeat(Some(p), n - 4)
  {
    ProbationIsExact(d, n, 1, s, p);
    ProbationIsExact(d, n, 0, s, p);
  }

  /** Power-ups that enter `s` in the course of `evs`. */
  function Entries(d: Device, evs: seq<Event>, s: Slot): nat
    decreases |evs|
  {
    if evs == [] then 0 else
    var d' := Step(d, evs[0]);
    (if evs[0].PowerOn? && d'.power == Up(Some(s), Idle) then 1 else 0) + Entries(d', evs[1..], s)
  }

  /** Power cuts, and power-ups that read the disk and find at least `idle` in memory. */
  predicate BootsReadably(ev: Event, idle: nat) {
    (ev.PowerOn? && ev.readable && idle <= ev.idle) || ev == CutBoot || ev == PowerOff
  }

  lemma {:induction false} NoEntriesAfterRollback(d: Device, evs: seq<Event>, idle: nat, s: Slot, p: Slot, u: Option<Uuid>)
    requires RolledBack(d.flash, p, u) && DiskNames(d, u) && s != p
    requires forall e <- evs :: BootsReadably(e, idle)
    ensures Entries(d, evs, s) == 0
    decreases |evs|
  {
    if evs != [] {
      assert BootsReadably(evs[0], idle);
      NoEntriesAfterRollback(Step(d, evs[0]), evs[1..], idle, s, p, u);
    }
  }

  /**
    While the disk can be read, power cuts in the middle of a boot can only cost an unvalidated
    slot attempts, never give it more.
  */
  lemma {:induction false} ProbationIsBounded(d: Device, evs: seq<Event>, idle: nat, s: Slot, p: Slot)
    requires OnProbation(d, s, p) && s != p
    requires forall e <- evs :: BootsReadably(e, idle)
    ensures Entries(d, evs, s) <= Attempts(d.flash, idle)
    decreases |evs|
  {
    if evs != [] {
      var d' := Step(d, evs[0]);
      assert BootsReadably(evs[0], idle);
      if evs[0].PowerOn? && RollsBack(d) {
        RollbackFires(d, evs[0].idle, p);
        var u :| RolledBack(d'.flash, p, u) && DiskNames(d', u);
        NoEntriesAfterRollback(d', evs[1..], idle, s, p, u);
      } else {
        ProbationIsBounded(d', evs[1..], idle, s, p);
      }
    }
  }

  // ---- Validation ---------------------------------------------------------------------------

  function Cuts(d: Device, n: nat): Device
    decreases n
  {
    if n == 0 then d else Cuts(Step(d, CutBoot), n - 1)
  }

  lemma {:induction false} CutsCount(d: Device, n: nat)
    ensures var d' := Cuts(d, n);
            && d'.disk == d.disk && d'.images == d.images
            && d'.flash == (if d.flash.upgradeAvailable
                            then d.flash.(bootcount := d.flash.bootcount + n) else d.flash)
            && (n > 0 ==> d'.power == Off) && (n == 0 ==> d' == d)
    decreases n
  {
    if n > 0 {
      CutsCount(Step(d, CutBoot), n - 1);
    }
  }

  /** Nothing can take the rollback branch any more: the counter is off and the disk says validated. */
  predicate Settled(d: Device) {
    && !d.flash.upgradeAvailable && !d.flash.rollback
    && d.disk.validated == Some(true)
  }

  /**
    Validation stops the countdown only at the next completed boot. After `n` boots cut short,
    that boot is a rollback all the same exactly when the stored count has run out; otherwise
    the device is settled, whether or not that boot could read the disk.
  */
  lemma ValidationComesTooLateExactlyWhen(d: Device, n: nat, readable: bool, idle: nat)
    requires Counting(d.flash) && d.disk.validated == Some(true)
    ensures var cut := Cuts(d, n);
            && (RollsBack(cut) <==> d.flash.upgradeAvailable && BOOTLIMIT < d.flash.bootcount + n + 1)
            && (!RollsBack(cut) ==> Settled(Step(cut, PowerOn(readable, idle))))
  {
    CutsCount(d, n);
  }

  /** An install's on-finish block really runs. */
  predicate Finishes(d: Device, ev: Event) {
    ev.FinishInstall? && d.power.Up? && d.power.task.Written?
  }

  predicate NothingFinishes(d: Device, evs: seq<Event>) {
    evs == []
    || (NothingFinishes(d, evs[..|evs| - 1]) && !Finishes(Run(d, evs[..|evs| - 1]), evs[|evs| - 1]))
  }

  /** A settled device never rolls back before an install finishes, even across unreadable disk blocks. */
  lemma {:induction false} SettledForGood(d: Device, evs: seq<Event>)
    requires Settled(d) && NothingFinishes(d, evs)
    ensures Settled(Run(d, evs)) && !RollsBack(Run(d, evs))
  {
    if evs != [] {
      SettledForGood(d, evs[..|evs| - 1]);
    }
  }

  /**
    A validation before the countdown has run out is final once a boot has completed, readable or
    not: nothing rolls the firmware back before an install finishes.
  */
  lemma ValidatedInTimeIsNeverRolledBack(d: Device, readable: bool, idle: nat, evs: seq<Event>)
    requires d.power.Up? && Counting(d.flash) && !RollsBack(d)
    requires NothingFinishes(Step(Step(d, Validate), PowerOn(readable, idle)), evs)
    ensures !RollsBack(Run(Step(Step(d, Validate), PowerOn(readable, idle)), evs))
  {
    SettledForGood(Step(Step(d, Validate), PowerOn(readable, idle)), evs);
  }

  /**
    The boot that rolls back still tells Linux the failed firmware's flag; from the next on it is
    told that what runs is validated, for as long as the rollback stands.
  */
  lemma RollbackTellsTheFailedFlag(d: Device, idle: nat, next: nat, p: Slot)
    requires RollsBack(d) && d.disk.previous == Some(p) && d.disk.validated == Some(false)
    ensures var d' := Step(d, PowerOn(true, idle));
            && PowerUp(d.flash, Some(d.disk), idle).validated == Some(false)
            && PowerUp(d'.flash, Some(d'.disk), next).slot == Some(p)
            && PowerUp(d'.flash, Some(d'.disk), next).validated == Some(true)
  {
  }
}
