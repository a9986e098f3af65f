/** The fwup tasks over the two slots and the disk environment, and the agent's own write to it. */
module Fwup {
  import opened Prelude
  import opened BootEnv

  /** What a slot's blocks hold. */
  datatype Image = Blank | Partial | Whole(uuid: Uuid)

  /** The slot the enabled upgrade task writes: each task requires the other slot to be active. */
  function Target(env: DiskEnv): Option<Slot> {
    if env.active.Some? then Some(env.active.value.Other()) else None
  }

  /** The environment after an upgrade task's on-finish block. */
  function Upgraded(env: DiskEnv, target: Slot, uuid: Uuid): DiskEnv {
    DiskEnv(Some(target), Some(false), Some(target.Other()), Some(uuid),
            env.slotUuid.With(target, Some(uuid)))
  }

  /** The environment the factory task writes. */
  function Factory(uuid: Uuid): DiskEnv {
    DiskEnv(Some(A), Some(true), None, Some(uuid), PerSlot(Some(uuid), None))
  }

  class Disk {
    var env: DiskEnv
    var images: PerSlot<Image>

    /** Task `complete` on a disk that may hold anything. */
    constructor Complete(before: PerSlot<Image>, uuid: Uuid)
      ensures env == Factory(uuid)
      ensures images == before.With(A, Whole(uuid))
    {
      env := DiskEnv(None, None, None, None, PerSlot(None, None));
      images := before.With(A, Partial);
      new;
      images := images.With(A, Whole(uuid));
      env := env.(slotUuid := env.slotUuid.With(A, Some(uuid)));
      env := env.(active := Some(A));
      env := env.(validated := Some(true));
      env := env.(uuid := Some(uuid));
    }

    /** Choosing `upgrade.a` or `upgrade.b` and writing its first blocks; nothing when neither is enabled. */
    method StartUpgrade() returns (target: Option<Slot>)
      modifies this`images
      ensures target == Target(env)
      ensures images == if target.Some? then old(images).With(target.value, Partial) else old(images)
    {
      target := None;
      if env.active == Some(A) {
        target := Some(B);
        images := images.With(B, Partial);
      } else if env.active == Some(B) {
        target := Some(A);
        images := images.With(A, Partial);
      }
    }

    method WriteRest(target: Slot, uuid: Uuid)
      modifies this`images
      ensures images == old(images).With(target, Whole(uuid))
    {
      images := images.With(target, Whole(uuid));
    }

    /** The on-finish block of `upgrade.b` or `upgrade.a`. */
    method FinishUpgrade(target: Slot, uuid: Uuid)
      modifies this`env
      ensures env == Upgraded(old(env), target, uuid)
    {
      if target == B {
        env := env.(slotUuid := env.slotUuid.With(B, Some(uuid)));
        env := env.(active := Some(B));
        env := env.(validated := Some(false));
        env := env.(previous := Some(A));
        env := env.(uuid := Some(uuid));
      } else {
        env := env.(slotUuid := env.slotUuid.With(A, Some(uuid)));
        env := env.(active := Some(A));
        env := env.(validated := Some(false));
        env := env.(previous := Some(B));
        env := env.(uuid := Some(uuid));
      }
    }

    /** Task `validate` of ops.conf. */
    method Validate()
      modifies this`env
      ensures env == old(env).(validated := Some(true))
    {
      env := env.(validated := Some(true));
    }

    /**
      The agent's start-up correction: make `fw_active` name the slot the kernel was booted from.
      `written` is whether fw_setenv succeeds.
    */
    method Reconcile(booted: Option<Slot>, written: bool)
      modifies this`env
      ensures written ==> env == old(env).(active := booted)
      ensures !written ==> env == old(env)
    {
      if env.active == booted {
        return;
      }
      if written {
        env := env.(active := booted);
      }
    }
  }

  /** The uuid the agent reports: the record of the slot named on the command line, else the bare one. */
  function CurrentUuid(env: DiskEnv, slot: Option<Slot>): Option<Uuid> {
    if slot.Some? && env.slotUuid.At(slot.value).Some? then env.slotUuid.At(slot.value) else env.uuid
  }
}
