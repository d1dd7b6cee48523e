/**
 * The hub accessory of one thermostat (`TuyaThermostatAccessory`): the
 * 5-second reconciliation tick with its safety shutoff, and the getters
 * and setters the hub calls for its characteristics. The accessory keeps
 * the device record from the hub accessory's context and owns a fresh
 * controller.
 */
module Accessory {
  import opened JsValue
  import opened Thermostat
  import opened Records
  import opened Shutoff

  /** Values of the Active characteristic */
  datatype ActiveValue = Inactive | Active

  /** The values of the heating/cooling state characteristics this accessory reports */
  datatype HeatingCooling = Off | Heat

  /** The number the hub sends for HEAT in TargetHeatingCoolingState */
  const HEAT: int := 1

  /** `device.currentTemp && device.targetTemp < device.currentTemp`: the guard of the target bump on HEAT */
  predicate RaisesTarget(current: Option<Num>, target: Option<Num>) {
    Truthy(current) && LessOpt(target, current)
  }

  /**
   * The guard needs a recorded, non-zero reading above a recorded target: a
   * reading of exactly 0 counts as no reading, and an unset target never
   * compares below anything.
   */
  lemma RaiseGuard(current: Option<Num>, target: Option<Num>)
    ensures !RaisesTarget(Some(Val(0.0)), Some(Val(-5.0)))
    ensures !RaisesTarget(None, target) && !RaisesTarget(current, None)
    ensures RaisesTarget(Some(Val(21.0)), Some(Val(18.0)))
  {
  }

  /** How a tick ended: the connect step threw, the forced turn-off threw, or it ran to the end */
  datatype TickOutcome = UpdateFailed | ShutoffFailed | Synced(action: Action)

  /**
   * An accessory as discovery builds it: a record that is off, with no
   * reading, target or heating timer, and a controller as constructed.
   */
  ghost predicate StartsFresh(acc: TuyaThermostatAccessory)
    reads acc.device, acc.thermostat, acc.thermostat.link
  {
    && !acc.device.state && acc.device.currentTemp == None && acc.device.targetTemp == None && acc.device.heatingSince == None
    && !acc.thermostat.state && acc.thermostat.targetTemp == Val(10.0) && acc.thermostat.currentTemp == Val(0.0)
    && !acc.thermostat.link.connected && acc.thermostat.link.sent == [] && acc.thermostat.poll == Polls(None, {}, 0)
  }

  class TuyaThermostatAccessory {
    const accessory: PlatformAccessory
    const device: Device
    const thermostat: ThermostatDevice

    /** The objects this accessory's operations change */
    ghost function Repr(): set<object> {
      {device, thermostat, thermostat.link}
    }

    ghost predicate Valid()
      reads thermostat, thermostat.link
    {
      thermostat.Valid()
    }

    /** Takes the record from the accessory's context and creates a new controller for it */
    constructor (accessory: PlatformAccessory)
      requires accessory.device != null
      ensures this.accessory == accessory && device == accessory.device
      ensures Valid() && fresh(thermostat) && fresh(thermostat.link)
      ensures !thermostat.state && thermostat.targetTemp == Val(10.0) && thermostat.currentTemp == Val(0.0)
      ensures !thermostat.link.connected && thermostat.link.sent == [] && thermostat.poll == Polls(None, {}, 0)
    {
      this.accessory := accessory;
      device := accessory.device;
      thermostat := new ThermostatDevice();
    }

    /**
     * One reconciliation tick at wall-clock `now` (ms). A failed connect skips
     * the tick; otherwise the power state is mirrored into the record and the
     * safety shutoff decides; a failed forced turn-off keeps the timer.
     */
    method Tick(now: int, net: Net) returns (outcome: TickOutcome)
      requires Valid()
      modifies device, thermostat, thermostat.link
      ensures Valid()
      ensures outcome.UpdateFailed? <==> !Reachable(old(thermostat.link.connected), net)
      ensures outcome.UpdateFailed? ==>
        && device.state == old(device.state) && device.heatingSince == old(device.heatingSince)
        && thermostat.link.sent == old(thermostat.link.sent) + ConnectSteps(old(thermostat.link.connected), net)
      ensures !outcome.UpdateFailed? ==>
        var action := Policy(device.disableAfterSeconds, old(device.heatingSince), old(thermostat.state), now);
        && Timer(device.state, device.heatingSince)
           == AfterTick(Timer(old(device.state), old(device.heatingSince)), old(thermostat.state), device.disableAfterSeconds, now, net.setOk)
        && outcome == (if action == ForceOff && !net.setOk then ShutoffFailed else Synced(action))
        && thermostat.link.sent == old(thermostat.link.sent) + ConnectSteps(old(thermostat.link.connected), net)
             + (if action == ForceOff then [SetPower(false)] else [])
      ensures thermostat.link.connected == Reachable(old(thermostat.link.connected), net)
      ensures thermostat.poll == if !old(thermostat.link.connected) && thermostat.link.connected then old(thermostat.poll).Start() else old(thermostat.poll)
      ensures thermostat.state == old(thermostat.state)
      ensures thermostat.targetTemp == old(thermostat.targetTemp) && thermostat.currentTemp == old(thermostat.currentTemp)
      ensures device.currentTemp == old(device.currentTemp) && device.targetTemp == old(device.targetTemp)
    {
      var ok := thermostat.Update(net);
      if !ok {
        return UpdateFailed;
      }
      device.state := thermostat.IsOn();
      if device.disableAfterSeconds.None? {
        return Synced(Idle);
      }
      if device.heatingSince.None? {
        if device.state {
          device.heatingSince := Some(now);
          return Synced(StartTimer);
        }
        return Synced(Idle);
      }
      var elapsed := ElapsedSeconds(now, device.heatingSince.value);
      if elapsed < device.disableAfterSeconds.value {
        return Synced(Idle);
      }
      ok := thermostat.TurnOff(net);
      if !ok {
        return ShutoffFailed;
      }
      device.heatingSince := None;
      return Synced(ForceOff);
    }

    /** ACTIVE exactly when the controller's cached state is on */
    function GetActive(): (a: ActiveValue)
      reads thermostat
      ensures a == Active <==> thermostat.IsOn()
    {
      if thermostat.IsOn() then Active else Inactive
    }

    /** A truthy value turns the device on, any other turns it off */
    method SetActive(value: int, net: Net) returns (ok: bool)
      requires Valid()
      modifies thermostat, thermostat.link
      ensures Valid()
      ensures ok == (Reachable(old(thermostat.link.connected), net) && net.setOk)
      ensures thermostat.link.sent == old(thermostat.link.sent) + PowerCommands(old(thermostat.link.connected), net, value != 0)
      ensures thermostat.link.connected == Reachable(old(thermostat.link.connected), net)
      ensures thermostat.poll == if !old(thermostat.link.connected) && thermostat.link.connected then old(thermostat.poll).Start() else old(thermostat.poll)
      ensures thermostat.state == old(thermostat.state)
      ensures thermostat.targetTemp == old(thermostat.targetTemp) && thermostat.currentTemp == old(thermostat.currentTemp)
    {
      if value != 0 {
        ok := thermostat.TurnOn(net);
      } else {
        ok := thermostat.TurnOff(net);
      }
    }

    /** HEAT exactly when the controller reports warming (on and below target) */
    function GetCurrentHeatingCoolingState(): (h: HeatingCooling)
      reads thermostat
      ensures h == Heat <==> thermostat.IsOn() && ShouldHeat(thermostat.currentTemp, thermostat.targetTemp)
    {
      if thermostat.IsWarming() then Heat else Off
    }

    /** HEAT exactly when the record's mirrored state is on */
    function GetTargetHeatingCoolingState(): (h: HeatingCooling)
      reads device
      ensures h == Heat <==> device.state
    {
      if device.state then Heat else Off
    }

    /**
     * Anything but HEAT turns the device off. HEAT turns it on and, when the
     * record holds a truthy current temperature above its target, raises the
     * target to one above the controller's reading (that write is not awaited,
     * so its failure does not reach the caller).
     */
    method SetTargetHeatingCoolingState(value: int, net: Net) returns (ok: bool)
      requires Valid()
      modifies device, thermostat, thermostat.link
      ensures Valid()
      ensures ok == (Reachable(old(thermostat.link.connected), net) && net.setOk)
      ensures value != HEAT ==>
        && thermostat.link.sent == old(thermostat.link.sent) + PowerCommands(old(thermostat.link.connected), net, false)
        && thermostat.targetTemp == old(thermostat.targetTemp) && device.targetTemp == old(device.targetTemp)
      ensures value == HEAT ==>
        var bump := ok && RaisesTarget(device.currentTemp, old(device.targetTemp));
        var raised := Add(thermostat.currentTemp, 1.0);
        && (bump ==>
             && thermostat.targetTemp == raised && device.targetTemp == Some(raised)
             && thermostat.link.sent == old(thermostat.link.sent) + PowerCommands(old(thermostat.link.connected), net, true)
                  + [SetPower(ShouldHeat(thermostat.currentTemp, raised))])
        && (!bump ==>
             && thermostat.targetTemp == old(thermostat.targetTemp) && device.targetTemp == old(device.targetTemp)
             && thermostat.link.sent == old(thermostat.link.sent) + PowerCommands(old(thermostat.link.connected), net, true))
      ensures thermostat.link.connected == Reachable(old(thermostat.link.connected), net)
      ensures thermostat.poll == if !old(thermostat.link.connected) && thermostat.link.connected then old(thermostat.poll).Start() else old(thermostat.poll)
      ensures thermostat.state == old(thermostat.state) && thermostat.currentTemp == old(thermostat.currentTemp)
      ensures device.state == old(device.state) && device.currentTemp == old(device.currentTemp)
      ensures device.heatingSince == old(device.heatingSince)
    {
      if value != HEAT {
        ok := thermostat.TurnOff(net);
      } else {
        ok := thermostat.TurnOn(net);
        if !ok {
          return;
        }
        if RaisesTarget(device.currentTemp, device.targetTemp) {
          RaiseTarget(net);
        }
      }
    }

    /**
     * The target bump on HEAT, over a connected link: the controller's target
     * becomes its reading plus one, which sends one power write, and the
     * record mirrors the new target without waiting for the write
     */
    method RaiseTarget(net: Net)
      requires Valid() && thermostat.link.connected
      modifies device, thermostat, thermostat.link
      ensures Valid()
      ensures thermostat.targetTemp == Add(thermostat.currentTemp, 1.0) && device.targetTemp == Some(thermostat.targetTemp)
      ensures thermostat.link.sent == old(thermostat.link.sent) + [SetPower(ShouldHeat(thermostat.currentTemp, thermostat.targetTemp))]
      ensures thermostat.link.connected && thermostat.poll == old(thermostat.poll)
      ensures thermostat.state == old(thermostat.state) && thermostat.currentTemp == old(thermostat.currentTemp)
      ensures device.state == old(device.state) && device.currentTemp == old(device.currentTemp)
      ensures device.heatingSince == old(device.heatingSince)
    {
      var _ := thermostat.SetTargetTemp(Add(thermostat.GetCurrentTemp(), 1.0), net);
      device.targetTemp := Some(thermostat.targetTemp);
    }

    /** The record's reading, `undefined` until a reading was recorded */
    function GetCurrentTemperature(): (t: Option<Num>)
      reads device
      ensures t == device.currentTemp
    {
      device.currentTemp
    }

    /** The record's target, `undefined` until a target was mirrored into it */
    function GetTargetTemperature(): (t: Option<Num>)
      reads device
      ensures t == device.targetTemp
    {
      device.targetTemp
    }

    /** Sets the controller's target; once that resolved, the record mirrors it */
    method SetTargetTemperature(value: real, net: Net) returns (ok: bool)
      requires Valid()
      modifies device, thermostat, thermostat.link
      ensures Valid()
      ensures thermostat.targetTemp == Val(value)
      ensures ok == (Reachable(old(thermostat.link.connected), net) && net.setOk)
      ensures device.targetTemp == if ok then Some(thermostat.targetTemp) else old(device.targetTemp)
      ensures thermostat.link.sent == old(thermostat.link.sent)
        + PowerCommands(old(thermostat.link.connected), net, ShouldHeat(thermostat.currentTemp, Val(value)))
      ensures thermostat.link.connected == Reachable(old(thermostat.link.connected), net)
      ensures thermostat.poll == if !old(thermostat.link.connected) && thermostat.link.connected then old(thermostat.poll).Start() else old(thermostat.poll)
      ensures thermostat.state == old(thermostat.state) && thermostat.currentTemp == old(thermostat.currentTemp)
      ensures device.state == old(device.state) && device.currentTemp == old(device.currentTemp)
      ensures device.heatingSince == old(device.heatingSince)
    {
      ok := thermostat.SetTargetTemp(Val(value), net);
      if !ok {
        return;
      }
      device.targetTemp := Some(thermostat.GetTargetTemp());
    }

    /**
     * Hands the reading to the controller, then records it. This is the
     * evidently intended behaviour: the source assigns to an undeclared
     * `device` at that point (see SetCurrentTemperatureAsWritten).
     */
    method SetCurrentTemperature(value: Num, net: Net) returns (ok: bool)
      requires Valid()
      modifies device, thermostat, thermostat.link
      ensures Valid()
      ensures thermostat.currentTemp == value
      ensures ok == (Reachable(old(thermostat.link.connected), net) && net.setOk)
      ensures device.currentTemp == if ok then Some(value) else old(device.currentTemp)
      ensures thermostat.link.sent == old(thermostat.link.sent)
        + PowerCommands(old(thermostat.link.connected), net, ShouldHeat(value, thermostat.targetTemp))
      ensures thermostat.link.connected == Reachable(old(thermostat.link.connected), net)
      ensures thermostat.poll == if !old(thermostat.link.connected) && thermostat.link.connected then old(thermostat.poll).Start() else old(thermostat.poll)
      ensures thermostat.state == old(thermostat.state) && thermostat.targetTemp == old(thermostat.targetTemp)
      ensures device.state == old(device.state) && device.targetTemp == old(device.targetTemp)
      ensures device.heatingSince == old(device.heatingSince)
    {
      ok := thermostat.SetCurrentTemp(value, net);
      if !ok {
        return;
      }
      device.currentTemp := Some(value);
    }

    /**
     * As written: after the controller took the reading, the assignment to the
     * undeclared `device` throws a ReferenceError, so the call always rejects
     * and the record keeps its old current temperature.
     */
    method SetCurrentTemperatureAsWritten(value: Num, net: Net) returns (ok: bool)
      requires Valid()
      modifies device, thermostat, thermostat.link
      ensures Valid()
      ensures !ok
      ensures thermostat.currentTemp == value && device.currentTemp == old(device.currentTemp)
      ensures thermostat.state == old(thermostat.state) && thermostat.targetTemp == old(thermostat.targetTemp)
      ensures thermostat.link.sent == old(thermostat.link.sent)
        + PowerCommands(old(thermostat.link.connected), net, ShouldHeat(value, thermostat.targetTemp))
      ensures thermostat.link.connected == Reachable(old(thermostat.link.connected), net)
      ensures thermostat.poll == if !old(thermostat.link.connected) && thermostat.link.connected then old(thermostat.poll).Start() else old(thermostat.poll)
      ensures device.state == old(device.state) && device.targetTemp == old(device.targetTemp)
      ensures device.heatingSince == old(device.heatingSince)
    {
      ok := thermostat.SetCurrentTemp(value, net);
      if !ok {
        return;
      }
      // `device.currentTemp = value` names no variable in scope: ReferenceError
      ok := false;
    }

    /** The configured id of the record, which the command bridge matches requests against */
    function GetDeviceId(): (id: string)
      ensures id == device.id
    {
      device.id
    }
  }

  /**
   * As written, the record's reading is never set, so the target bump on HEAT
   * never fires: a new accessory that receives any sequence of readings, each
   * over its own network outcome, and is then set to HEAT keeps the record's
   * target unset and the controller's target at 10.
   */
  method TargetBumpDeadAsWritten(cfg: DeviceConfig, readings: seq<(Num, Net)>, net: Net) returns (recordTarget: Option<Num>, controllerTarget: Num)
    ensures recordTarget == None && controllerTarget == Val(10.0)
  {
    var device := new Device(cfg);
    var context := new PlatformAccessory(cfg.name, device.uuid);
    context.device := device;
    var acc := new TuyaThermostatAccessory(context);
    var i := 0;
    while i < |readings|
      invariant 0 <= i <= |readings|
      invariant acc.device == device && acc.Valid()
      invariant fresh(device) && fresh(acc.thermostat) && fresh(acc.thermostat.link)
      invariant device.currentTemp == None && device.targetTemp == None && acc.thermostat.targetTemp == Val(10.0)
    {
      var _ := acc.SetCurrentTemperatureAsWritten(readings[i].0, readings[i].1);
      i := i + 1;
    }
    var _ := acc.SetTargetHeatingCoolingState(HEAT, net);
    recordTarget, controllerTarget := device.targetTemp, acc.thermostat.targetTemp;
  }
}
