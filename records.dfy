/**
 * The configured device entry, the shared device record the accessory
 * mutates in place, and the hub's accessory object whose context holds
 * that record.
 */
module Records {
  import opened JsValue

  /** One entry of the platform's `devices` configuration */
  datatype DeviceConfig = DeviceConfig(name: string, id: string, key: string, disableAfterSeconds: Option<real>)

  /** An accessory UUID; generated from a device id by an injective map */
  datatype Uuid = UuidOf(source: string)

  /** `uuid.generate(id)`, taken as collision-free */
  function GenerateUuid(id: string): Uuid {
    UuidOf(id)
  }

  /**
   * The device record: configuration plus the volatile fields. The temperature
   * fields and `heatingSince` start out `undefined`; `state` starts out
   * `undefined`, which every reader treats as off.
   */
  class Device {
    const name: string
    const id: string
    const key: string
    const disableAfterSeconds: Option<real>
    const uuid: Uuid
    var state: bool
    var currentTemp: Option<Num>
    var targetTemp: Option<Num>
    var heatingSince: Option<int>

    /** `{...cd, uuid: uuid.generate(cd.id)}` */
    constructor (cfg: DeviceConfig)
      ensures name == cfg.name && id == cfg.id && key == cfg.key
      ensures disableAfterSeconds == cfg.disableAfterSeconds && uuid == GenerateUuid(cfg.id)
      ensures !state && currentTemp == None && targetTemp == None && heatingSince == None
    {
      name, id, key := cfg.name, cfg.id, cfg.key;
      disableAfterSeconds := cfg.disableAfterSeconds;
      uuid := GenerateUuid(cfg.id);
      state := false;
      currentTemp, targetTemp, heatingSince := None, None, None;
    }
  }

  /** The hub's accessory: display name, UUID and the context slot holding the device record */
  class PlatformAccessory {
    const displayName: string
    const uuid: Uuid
    var device: Device?

    constructor (displayName: string, uuid: Uuid)
      ensures this.displayName == displayName && this.uuid == uuid && device == null
    {
      this.displayName := displayName;
      this.uuid := uuid;
      device := null;
    }
  }
}
