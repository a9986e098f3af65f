/**
  A device with two slots over a whole life: power-ups, power cuts, agent restarts, installs
  and validations in any order.
*/
module Device {
  import opened Prelude
  import opened BootEnv
  import opened Fwup

  datatype Task = Idle | Writing(target: Slot) | Written(target: Slot, uuid: Uuid)

  /** `slot` is what the kernel command line says was booted. */
  datatype Power = Off | Up(slot: Option<Slot>, task: Task)

  datatype Device = Device(disk: DiskEnv, flash: Env, images: PerSlot<Image>, power: Power)

  datatype Event =
    | PowerOn(readable: bool, idle: nat)   // counter and script both complete
    | CutBoot                              // power lost after the counter, before the script's saveenv
    | PowerOff
    | AgentStart(corrected: bool)          // reconciliation; `corrected` is whether its write succeeds
    | StartInstall
    | WriteRest(uuid: Uuid)
    | FinishInstall
    | Validate

  function Step(d: Device, ev: Event): Device {
    match ev
    case PowerOn(readable, idle) =>
      var boot := PowerUp(d.flash, if readable then Some(d.disk) else None, idle);
      d.(flash := boot.flash, power := Up(boot.slot, Idle))
    case CutBoot => d.(flash := Counted(d.flash), power := Off)
    case PowerOff => d.(power := Off)
    case _ =>
      if d.power == Off then d else StepUp(d, ev)
  }

  /** What Linux can do; an agent that restarts loses the fwup child it was feeding. */
  function StepUp(d: Device, ev: Event): Device
    requires d.power.Up? && !ev.PowerOn? && !ev.CutBoot? && !ev.PowerOff?
  {
    match ev
    case AgentStart(corrected) =>
      d.(disk := if corrected then d.disk.(active := d.power.slot) else d.disk,
         power := d.power.(task := Idle))
    case StartInstall =>
      var target := Target(d.disk);
      if d.power.task == Idle && target.Some?
      then d.(images := d.images.With(target.value, Partial), power := d.power.(task := Writing(target.value)))
      else d
    case WriteRest(uuid) =>
      if d.power.task.Writing?
      then d.(images := d.images.With(d.power.task.target, Whole(uuid)),
              power := d.power.(task := Written(d.power.task.target, uuid)))
      else d
    case FinishInstall =>
      if d.power.task.Written?
      then d.(disk := Upgraded(d.disk, d.power.task.target, d.power.task.uuid),
              power := d.power.(task := Idle))
      else d
    case Validate => d.(disk := d.disk.(validated := Some(true)))
  }

  function Run(d: Device, evs: seq<Event>): Device {
    if evs == [] then d else Step(Run(d, evs[..|evs| - 1]), evs[|evs| - 1])
  }

  /** A device as it leaves the factory: slot A written by task `complete`, nothing in flash. */
  function NewDevice(uuid: Uuid): Device {
    Device(Factory(uuid),
           Env(DiskEnv(None, None, None, None, PerSlot(None, None)), false, None, None, false, 0, 0),
           PerSlot(Whole(uuid), Blank), Off)
  }

  /** The bootloader's script and counter, the fwup tasks and the agent's correction, put together. */
  class Rig {
    const uboot: Uboot
    const storage: Disk
    var power: Power

    function Value(): Device
      reads this, uboot, storage
    {
      Device(storage.env, uboot.flash, storage.images, power)
    }

    constructor (uuid: Uuid)
      ensures Value() == NewDevice(uuid)
      ensures fresh(uboot) && fresh(storage)
    {
      uboot := new Uboot(NewDevice(uuid).flash);
      storage := new Disk.Complete(PerSlot(Blank, Blank), uuid);
      power := Off;
    }

    /** One event, carried out by the parts it belongs to. */
    method Do(ev: Event)
      modifies this, uboot, storage
      ensures Value() == Step(old(Value()), ev)
    {
      match ev {
        case PowerOn(readable, idle) =>
          uboot.CountBoot(idle);
          var slot, _ := uboot.RunScript(if readable then Some(storage.env) else None);
          power := Up(slot, Idle);
        case CutBoot =>
          uboot.CountBoot(0);
          power := Off;
        case PowerOff =>
          power := Off;
        case AgentStart(corrected) =>
          if power.Up? {
            storage.Reconcile(power.slot, corrected);
            power := power.(task := Idle);
          }
        case StartInstall =>
          if power.Up? && power.task == Idle {
            var target := storage.StartUpgrade();
            if target.Some? {
              power := power.(task := Writing(target.value));
            }
          }
        case WriteRest(uuid) =>
          if power.Up? && power.task.Writing? {
            storage.WriteRest(power.task.target, uuid);
            power := power.(task := Written(power.task.target, uuid));
          }
        case FinishInstall =>
          if power.Up? && power.task.Written? {
            storage.FinishUpgrade(power.task.target, power.task.uuid);
            power := power.(task := Idle);
          }
        case Validate =>
          if power.Up? {
            storage.Validate();
          }
      }
    }
  }
}
