/**
  The two u-boot environments of the A/B scheme, and the boot script that reads both.

  The disk environment is written by fwup and by Linux and only imported by u-boot; the flash
  environment is u-boot's own. `saveenv` stores everything u-boot holds at that moment, so the
  flash also keeps a copy of whatever was last imported from the disk.

  An unset variable is `None`. u-boot expands it to the empty string, so comparing two options
  is what the script's `test "${x}" = "${y}"` does.
*/
module BootEnv {
  import opened Prelude

  datatype Slot = A | B {
    function Other(): Slot {
      if this == A then B else A
    }
  }

  datatype PerSlot<T> = PerSlot(a: T, b: T) {
    function At(s: Slot): T {
      if s == A then a else b
    }

    function With(s: Slot, v: T): PerSlot<T> {
      if s == A then PerSlot(v, b) else PerSlot(a, v)
    }
  }

  type Uuid = string

  /** The variables fwup keeps: `fw_active`, `fw_validated`, `fw_previous`, `fw_uuid`, `<slot>.fw_uuid`. */
  datatype DiskEnv = DiskEnv(
    active: Option<Slot>,
    validated: Option<bool>,
    previous: Option<Slot>,
    uuid: Option<Uuid>,
    slotUuid: PerSlot<Option<Uuid>>)

  /** Everything u-boot holds: its copy of the disk's variables, and its own. */
  datatype Env = Env(
    vars: DiskEnv,
    rollback: bool,              // fw_rollback
    override: Option<Slot>,      // fw_override
    overrideFor: Option<Uuid>,   // fw_override_for
    upgradeAvailable: bool,
    bootcount: nat,
    bootlimit: nat)              // 0 while unset; altbootcmd is set and saved with it

  const BOOTLIMIT: nat := 3

  /** What one run of the script leaves behind. */
  datatype Boot = Boot(
    flash: Env,                  // as saved
    slot: Option<Slot>,          // fw_slot on the kernel command line
    validated: Option<bool>)     // fw_validated on the kernel command line

  function Over<T>(kept: Option<T>, found: Option<T>): Option<T> {
    if found.Some? then found else kept
  }

  /** `env import`: variables the block sets replace u-boot's, the others stay. */
  function Import(vars: DiskEnv, disk: DiskEnv): DiskEnv {
    DiskEnv(
      Over(vars.active, disk.active),
      Over(vars.validated, disk.validated),
      Over(vars.previous, disk.previous),
      Over(vars.uuid, disk.uuid),
      PerSlot(Over(vars.slotUuid.a, disk.slotUuid.a), Over(vars.slotUuid.b, disk.slotUuid.b)))
  }

  /** The variables after loading: imported, or slot a validated when the block cannot be read. */
  function Load(vars: DiskEnv, disk: Option<DiskEnv>): DiskEnv {
    match disk
    case Some(d) => Import(vars, d)
    case None => vars.(active := Some(A), validated := Some(true))
  }

  /** Whether a recorded rollback is about the firmware the loaded variables name. */
  predicate Applies(env: Env, vars: DiskEnv) {
    env.override.Some? && env.overrideFor == vars.uuid
  }

  /** The slot the script enters: the previous one on a rollback, else an override, else the active one. */
  function Choice(env: Env, vars: DiskEnv): Option<Slot> {
    if env.rollback then vars.previous
    else if Applies(env, vars) then env.override
    else vars.active
  }

  /** Whether the script leaves the counter armed: only an unvalidated slot that is not overridden. */
  predicate Arms(env: Env, vars: DiskEnv) {
    !env.rollback && !Applies(env, vars) && vars.validated != Some(true)
  }

  /** The whole effect of the script on an environment `env` and a disk block. */
  function Script(env: Env, disk: Option<DiskEnv>): Boot {
    var vars := Load(env.vars, disk);
    var armed := Arms(env, vars);
    var count := if armed then env.bootcount else 0;
    var slot := Choice(env, vars);
    if env.rollback then
      // Saved before fw_active is rewritten, and without touching bootlimit.
      Boot(Env(vars, false, vars.previous, vars.uuid, false, 0, env.bootlimit), slot, vars.validated)
    else if Applies(env, vars) then
      var seen := vars.(active := env.override, validated := Some(true));
      Boot(Env(seen, false, env.override, env.overrideFor, false, 0, BOOTLIMIT), slot, Some(true))
    else
      var tag := if env.overrideFor == vars.uuid then env.overrideFor else None;
      Boot(Env(vars, false, None, tag, armed, count, BOOTLIMIT), slot, vars.validated)
  }

  /** u-boot itself: the environment in memory and in flash, and the script run over them. */
  class Uboot {
    var flash: Env
    var env: Env

    constructor (stored: Env)
      ensures flash == stored && env == stored
    {
      flash, env := stored, stored;
    }

    method SaveEnv()
      modifies this`flash
      ensures flash == env
    {
      flash := env;
    }

    /**
      Power-up before any script: the boot counter, and altbootcmd once the limit is passed.
      The count is stored only while upgrade_available is set; `idle` is what the variable holds
      in memory otherwise.
    */
    method CountBoot(idle: nat)
      modifies this
      ensures flash == Counted(old(flash))
      ensures env == InMemory(old(flash), idle)
    {
      env := flash;
      if env.upgradeAvailable {
        env := env.(bootcount := env.bootcount + 1);
        SaveEnv();
        if 0 < env.bootlimit && env.bootlimit < env.bootcount {
          env := env.(rollback := true);
        }
      } else {
        env := env.(bootcount := idle);
      }
    }

    /** boot.cmd, statement by statement. */
    method RunScript(disk: Option<DiskEnv>) returns (slot: Option<Slot>, validated: Option<bool>)
      modifies this
      ensures Boot(flash, slot, validated) == Script(old(env), disk)
    {
      if disk.Some? {
        env := env.(vars := Import(env.vars, disk.value));
      } else {
        env := env.(vars := env.vars.(active := Some(A)));
        env := env.(vars := env.vars.(validated := Some(true)));
      }

      if env.rollback {
        env := env.(override := env.vars.previous);
        env := env.(overrideFor := env.vars.uuid);
        env := env.(upgradeAvailable := false);
        env := env.(bootcount := 0);
        env := env.(rollback := false);
        SaveEnv();
        env := env.(vars := env.vars.(active := env.vars.previous));
      } else {
        if env.overrideFor != env.vars.uuid {
          env := env.(override := None);
          env := env.(overrideFor := None);
        }
        if env.override.Some? {
          env := env.(vars := env.vars.(active := env.override));
          env := env.(vars := env.vars.(validated := Some(true)));
          env := env.(upgradeAvailable := false);
          env := env.(bootcount := 0);
        } else {
          if env.vars.validated == Some(true) {
            env := env.(upgradeAvailable := false);
            env := env.(bootcount := 0);
          } else {
            env := env.(upgradeAvailable := true);
          }
        }
        env := env.(bootlimit := BOOTLIMIT);
        SaveEnv();
      }
      slot, validated := env.vars.active, env.vars.validated;
    }
  }

  /** Whether the next power-up runs altbootcmd instead of the ordinary boot command. */
  predicate Exceeded(flash: Env) {
    flash.upgradeAvailable && 0 < flash.bootlimit < flash.bootcount + 1
  }

  /** The flash once the counter has run and before the script has. */
  function Counted(flash: Env): Env {
    if flash.upgradeAvailable then flash.(bootcount := flash.bootcount + 1) else flash
  }

  /** The environment the script starts from. */
  function InMemory(flash: Env, idle: nat): Env {
    Env(flash.vars, flash.rollback || Exceeded(flash), flash.override, flash.overrideFor,
        flash.upgradeAvailable,
        if flash.upgradeAvailable then flash.bootcount + 1 else idle,
        flash.bootlimit)
  }

  /** A whole power-up. */
  function PowerUp(flash: Env, disk: Option<DiskEnv>, idle: nat): Boot {
    Script(InMemory(flash, idle), disk)
  }

  /** The partition `/dev/vda1` or `/dev/vda2` the kernel is rooted on. */
  function Rooted(slot: Option<Slot>): Slot {
    if slot == Some(B) then B else A
  }

  // ---- What a power-up comes to, in the variables of the disk and of the flash ------------------

  /** A rollback is due: recorded already, or this power-up is one more than the limit allows. */
  predicate Due(flash: Env) {
    flash.rollback || (flash.upgradeAvailable && flash.bootlimit > 0 && flash.bootcount + 1 > flash.bootlimit)
  }

  /** What a variable was last set to: on the disk if it can be read and says, else in u-boot's copy. */
  function Latest<T>(disk: Option<T>, copy: Option<T>): Option<T> {
    if disk.Some? then disk else copy
  }

  /** A rollback was recorded, and it was recorded against the firmware that is still named. */
  predicate Recorded(flash: Env, disk: Option<DiskEnv>) {
    && flash.override.Some?
    && flash.overrideFor == if disk.Some? then Latest(disk.value.uuid, flash.vars.uuid) else flash.vars.uuid
  }

  /** The slot that is entered. */
  lemma EntersExactly(flash: Env, disk: Option<DiskEnv>, idle: nat)
    ensures var slot := PowerUp(flash, disk, idle).slot;
            && (Due(flash) ==>
                  slot == if disk.Some? then Latest(disk.value.previous, flash.vars.previous) else flash.vars.previous)
            && (!Due(flash) && Recorded(flash, disk) ==> slot == flash.override)
            && (!Due(flash) && !Recorded(flash, disk) ==>
                  slot == if disk.Some? then Latest(disk.value.active, flash.vars.active) else Some(A))
  {
  }

  /**
    What Linux is told: "validated" exactly when u-boot has stopped counting. Only the boot that
    rolls back passes on the flag of the firmware it has just given up.
  */
  lemma ToldValidatedExactlyWhenDisarmed(flash: Env, disk: Option<DiskEnv>, idle: nat)
    ensures var boot := PowerUp(flash, disk, idle);
            && (!Due(flash) ==> (boot.validated == Some(true) <==> !boot.flash.upgradeAvailable))
            && (Due(flash) ==>
                  !boot.flash.upgradeAvailable
                  && boot.validated == if disk.Some? then Latest(disk.value.validated, flash.vars.validated) else Some(true))
  {
  }

  /** The counter is left armed exactly by an unvalidated slot that is neither a rollback nor an override. */
  lemma CountsExactlyWhen(flash: Env, disk: Option<DiskEnv>, idle: nat)
    ensures var left := PowerUp(flash, disk, idle).flash;
            && (left.upgradeAvailable <==>
                  !Due(flash) && !Recorded(flash, disk)
                  && disk.Some? && Latest(disk.value.validated, flash.vars.validated) != Some(true))
            && left.bootcount == (if !left.upgradeAvailable then 0
                                  else if flash.upgradeAvailable then flash.bootcount + 1 else idle)
            && left.bootlimit == (if Due(flash) then flash.bootlimit else 3)
            && !left.rollback
  {
  }

  /** What is remembered of a rollback: the slot and the firmware it was made against, until other firmware is read. */
  lemma RemembersExactly(flash: Env, disk: Option<DiskEnv>, idle: nat)
    ensures var boot := PowerUp(flash, disk, idle);
            && (Due(flash) ==> boot.flash.override == boot.slot && boot.flash.overrideFor == boot.flash.vars.uuid)
            && (!Due(flash) && Recorded(flash, disk) ==>
                  boot.flash.override == flash.override && boot.flash.overrideFor == flash.overrideFor)
            && (!Due(flash) && !Recorded(flash, disk) ==>
                  boot.flash.override == None
                  && boot.flash.overrideFor == if flash.overrideFor == boot.flash.vars.uuid then flash.overrideFor else None)
  {
  }

  /** u-boot's copy afterwards: what was last set, but for the active slot and its flag, which it may have decided itself. */
  lemma KeepsACopy(flash: Env, disk: Option<DiskEnv>, idle: nat)
    ensures var copy := PowerUp(flash, disk, idle).flash.vars;
            match disk
            case None =>
              && copy.uuid == flash.vars.uuid && copy.previous == flash.vars.previous
              && copy.slotUuid == flash.vars.slotUuid && copy.validated == Some(true)
              && copy.active == if !Due(flash) && Recorded(flash, disk) then flash.override else Some(A)
            case Some(d) =>
              && copy.uuid == Latest(d.uuid, flash.vars.uuid)
              && copy.previous == Latest(d.previous, flash.vars.previous)
              && copy.slotUuid.a == Latest(d.slotUuid.a, flash.vars.slotUuid.a)
              && copy.slotUuid.b == Latest(d.slotUuid.b, flash.vars.slotUuid.b)
              && (if !Due(flash) && Recorded(flash, disk)
                  then copy.active == flash.override && copy.validated == Some(true)
                  else copy.active == Latest(d.active, flash.vars.active)
                       && copy.validated == Latest(d.validated, flash.vars.validated))
  {
  }
}
