/**
 * The thermostat controller (`ThermostatDevice`): a cached power state,
 * the current and target temperatures, a lazily (re)connected device link
 * and the 100 ms keep-alive poll started on each successful connect.
 *
 * The device link is reduced to its connection flag and the log of the
 * commands issued on it. Whether discovery, the handshake and a power
 * write succeed during one call is the parameter `net`; a rejected
 * promise is a `false` result.
 */
module Thermostat {
  import opened JsValue

  /** A command issued on the device link */
  datatype Command = Find | Connect | SetPower(on: bool)

  /** How the device answers during one call */
  datatype Net = Net(findOk: bool, connectOk: bool, setOk: bool)

  /** The keep-alive poll timers: the handle kept in `refreshInterval`, the timers still running, how many were started */
  datatype Polls = Polls(handle: Option<nat>, running: set<nat>, started: nat)
  {
    ghost predicate Valid() {
      (handle.Some? ==> handle.value < started) && forall t :: t in running ==> t < started
    }

    /** `setInterval(...)` stored into `refreshInterval`: a new timer, the old handle overwritten */
    function Start(): (p: Polls)
      requires Valid()
      ensures p.Valid() && p.handle == Some(started) && started !in running
      ensures p.running == running + {started}
    {
      Polls(Some(started), running + {started}, started + 1)
    }

    /** `if (refreshInterval) clearInterval(refreshInterval)`: only the stored timer stops */
    function Cancel(): (p: Polls)
      requires Valid()
      ensures p.Valid() && p.handle == handle && p.started == started
      ensures handle.None? ==> p.running == running
      ensures handle.Some? ==> p.running == running - {handle.value}
    {
      if handle.Some? then Polls(handle, running - {handle.value}, started) else this
    }
  }

  /** The device link: connection status and everything issued on it */
  class Link {
    var connected: bool
    var sent: seq<Command>

    constructor ()
      ensures !connected && sent == []
    {
      connected := false;
      sent := [];
    }

    /** The link drops (a link error or a closed socket) */
    method Disconnect()
      modifies this
      ensures !connected && sent == old(sent)
    {
      connected := false;
    }
  }

  /** Whether `update()` leaves the link connected */
  predicate Reachable(connected: bool, net: Net) {
    connected || (net.findOk && net.connectOk)
  }

  /** What `update()` issues: nothing when connected, else find and, if found, connect */
  function ConnectSteps(connected: bool, net: Net): (cs: seq<Command>)
    ensures connected <==> cs == []
    ensures SetPower(true) !in cs && SetPower(false) !in cs
    ensures Reachable(connected, net) && !connected ==> cs == [Find, Connect]
  {
    if connected then [] else if !net.findOk then [Find] else [Find, Connect]
  }

  /** What `turnOn()`/`turnOff()` issue: the connect steps, then the power write if connected */
  function PowerCommands(connected: bool, net: Net, on: bool): (cs: seq<Command>)
    ensures |ConnectSteps(connected, net)| <= |cs| && cs[..|ConnectSteps(connected, net)|] == ConnectSteps(connected, net)
    ensures SetPower(on) in cs <==> Reachable(connected, net)
    ensures SetPower(!on) !in cs
    ensures Reachable(connected, net) ==> cs[|cs| - 1] == SetPower(on)
  {
    ConnectSteps(connected, net) + (if Reachable(connected, net) then [SetPower(on)] else [])
  }

  /**
   * The control rule of both temperature setters: heat iff current < target,
   * with no hysteresis; equal temperatures and NaN on either side mean off
   */
  predicate ShouldHeat(current: Num, target: Num): (h: bool)
    ensures h <==> current.Val? && target.Val? && current.r < target.r
    ensures current == target ==> !h
  {
    Less(current, target)
  }

  /** Every power write in a log was issued after a connect */
  ghost predicate WritesFollowConnect(log: seq<Command>) {
    forall i :: 0 <= i < |log| && log[i].SetPower? ==> Connect in log[..i]
  }

  /** One call of a power operation issues at most one power write, the requested one, and only over a connected link */
  lemma {:induction false} OnePowerWrite(log: seq<Command>, connected: bool, net: Net, on: bool)
    requires WritesFollowConnect(log) && (connected ==> Connect in log)
    ensures var after := log + PowerCommands(connected, net, on);
      && WritesFollowConnect(after)
      && (Reachable(connected, net) <==> SetPower(on) in after[|log|..])
      && SetPower(!on) !in after[|log|..]
  {
    var cs := PowerCommands(connected, net, on);
    var after := log + cs;
    assert after[|log|..] == cs;
    forall i | 0 <= i < |after| && after[i].SetPower?
      ensures Connect in after[..i]
    {
      if i < |log| {
        assert after[..i] == log[..i];
      } else {
        assert cs[i - |log|].SetPower?;
        if connected {
          assert Connect in log;
          assert log <= after[..i];
        } else {
          assert cs == [Find, Connect, SetPower(on)];
          assert after[..i][|log| + 1] == Connect;
        }
      }
    }
  }

  class ThermostatDevice {
    const link: Link
    var state: bool
    var targetTemp: Num
    var currentTemp: Num
    var poll: Polls

    ghost predicate Valid()
      reads this, link
    {
      && poll.Valid()
      && WritesFollowConnect(link.sent)
      && (link.connected ==> Connect in link.sent)
    }

    /** A fresh controller: off, current 0, target 10, not connected, no poll */
    constructor ()
      ensures Valid() && fresh(link)
      ensures !state && targetTemp == Val(10.0) && currentTemp == Val(0.0)
      ensures !link.connected && link.sent == []
      ensures poll == Polls(None, {}, 0)
    {
      link := new Link();
      state := false;
      targetTemp := Val(10.0);
      currentTemp := Val(0.0);
      poll := Polls(None, {}, 0);
    }

    /** The link's `data` push: the only place the cached power state changes (an absent field reads as off) */
    method OnData(power: Option<bool>)
      requires Valid()
      modifies this
      ensures Valid()
      ensures state == (power == Some(true))
      ensures targetTemp == old(targetTemp) && currentTemp == old(currentTemp) && poll == old(poll)
    {
      state := power == Some(true);
    }

    /** Cancels the stored poll timer only; temperatures and power state stay */
    method Stop()
      requires Valid()
      modifies this
      ensures Valid()
      ensures poll == old(poll).Cancel()
      ensures state == old(state) && targetTemp == old(targetTemp) && currentTemp == old(currentTemp)
    {
      poll := poll.Cancel();
    }

    /** Lazy connect: a no-op when connected; else find, connect, and start a poll */
    method Update(net: Net) returns (ok: bool)
      requires Valid()
      modifies this, link
      ensures Valid()
      ensures ok == Reachable(old(link.connected), net) && link.connected == ok
      ensures link.sent == old(link.sent) + ConnectSteps(old(link.connected), net)
      ensures poll == if !old(link.connected) && ok then old(poll).Start() else old(poll)
      ensures state == old(state) && targetTemp == old(targetTemp) && currentTemp == old(currentTemp)
    {
      ok := true;
      if !link.connected {
        AppendNonWrite(link.sent, Find);
        link.sent := link.sent + [Find];
        if !net.findOk {
          ok := false;
          return;
        }
        AppendNonWrite(link.sent, Connect);
        link.sent := link.sent + [Connect];
        if !net.connectOk {
          ok := false;
          return;
        }
        link.connected := true;
        poll := poll.Start();
      }
    }

    /** Connects if needed, then writes power on; the cached state is not touched */
    method TurnOn(net: Net) returns (ok: bool)
      requires Valid()
      modifies this, link
      ensures Valid()
      ensures ok == (Reachable(old(link.connected), net) && net.setOk)
      ensures link.sent == old(link.sent) + PowerCommands(old(link.connected), net, true)
      ensures link.connected == Reachable(old(link.connected), net)
      ensures poll == if !old(link.connected) && link.connected then old(poll).Start() else old(poll)
      ensures state == old(state) && targetTemp == old(targetTemp) && currentTemp == old(currentTemp)
    {
      ok := Update(net);
      if !ok {
        return;
      }
      AppendWrite(link.sent, true);
      link.sent := link.sent + [SetPower(true)];
      ok := net.setOk;
    }

    /** Connects if needed, then writes power off; the cached state is not touched */
    method TurnOff(net: Net) returns (ok: bool)
      requires Valid()
      modifies this, link
      ensures Valid()
      ensures ok == (Reachable(old(link.connected), net) && net.setOk)
      ensures link.sent == old(link.sent) + PowerCommands(old(link.connected), net, false)
      ensures link.connected == Reachable(old(link.connected), net)
      ensures poll == if !old(link.connected) && link.connected then old(poll).Start() else old(poll)
      ensures state == old(state) && targetTemp == old(targetTemp) && currentTemp == old(currentTemp)
    {
      ok := Update(net);
      if !ok {
        return;
      }
      AppendWrite(link.sent, false);
      link.sent := link.sent + [SetPower(false)];
      ok := net.setOk;
    }

    /** Stores the target, then turns on iff current < target */
    method SetTargetTemp(value: Num, net: Net) returns (ok: bool)
      requires Valid()
      modifies this, link
      ensures Valid()
      ensures targetTemp == value && currentTemp == old(currentTemp) && state == old(state)
      ensures ok == (Reachable(old(link.connected), net) && net.setOk)
      ensures link.sent == old(link.sent) + PowerCommands(old(link.connected), net, ShouldHeat(currentTemp, value))
      ensures link.connected == Reachable(old(link.connected), net)
      ensures poll == if !old(link.connected) && link.connected then old(poll).Start() else old(poll)
    {
      targetTemp := value;
      if Less(currentTemp, targetTemp) {
        ok := TurnOn(net);
      } else {
        ok := TurnOff(net);
      }
    }

    /** Stores the reading, then turns on iff current < target */
    method SetCurrentTemp(value: Num, net: Net) returns (ok: bool)
      requires Valid()
      modifies this, link
      ensures Valid()
      ensures currentTemp == value && targetTemp == old(targetTemp) && state == old(state)
      ensures ok == (Reachable(old(link.connected), net) && net.setOk)
      ensures link.sent == old(link.sent) + PowerCommands(old(link.connected), net, ShouldHeat(value, targetTemp))
      ensures link.connected == Reachable(old(link.connected), net)
      ensures poll == if !old(link.connected) && link.connected then old(poll).Start() else old(poll)
    {
      currentTemp := value;
      if Less(currentTemp, targetTemp) {
        ok := TurnOn(net);
      } else {
        ok := TurnOff(net);
      }
    }

    /** `getState()` and `isOn()` report the same cached power state */
    function GetState(): (s: bool)
      reads this
      ensures s == IsOn()
    {
      state
    }

    function GetTargetTemp(): (t: Num)
      reads this
      ensures t == targetTemp
    {
      targetTemp
    }

    function GetCurrentTemp(): (c: Num)
      reads this
      ensures c == currentTemp
    {
      currentTemp
    }

    /** The link's own status: `update()` connects exactly when this is false */
    function IsConnected(): (c: bool)
      reads this, link
      ensures c == link.connected
    {
      link.connected
    }

    /** The cached power state, as last pushed by the device */
    function IsOn(): (on: bool)
      reads this
      ensures on == state
    {
      state
    }

    /** Heating is reported only while the cached state is on and the room is below target */
    function IsWarming(): (w: bool)
      reads this
      ensures w ==> IsOn()
      ensures w <==> IsOn() && ShouldHeat(currentTemp, targetTemp)
    {
      IsOn() && Less(currentTemp, targetTemp)
    }
  }

  /** Appending a command that is not a power write keeps every power write after a connect */
  lemma AppendNonWrite(log: seq<Command>, c: Command)
    requires WritesFollowConnect(log) && !c.SetPower?
    ensures WritesFollowConnect(log + [c])
  {
    var after := log + [c];
    forall i | 0 <= i < |after| && after[i].SetPower?
      ensures Connect in after[..i]
    {
      assert after[..i] == log[..i];
    }
  }

  /** A power write appended after a connect keeps every power write after a connect */
  lemma AppendWrite(log: seq<Command>, on: bool)
    requires WritesFollowConnect(log) && Connect in log
    ensures WritesFollowConnect(log + [SetPower(on)])
  {
    var after := log + [SetPower(on)];
    forall i | 0 <= i < |after| && after[i].SetPower?
      ensures Connect in after[..i]
    {
      if i < |log| {
        assert after[..i] == log[..i];
      } else {
        assert after[..i] == log;
      }
    }
  }

  /**
   * A reconnect leaks the earlier poll timer: a new controller connects, its
   * link drops, it connects again and is stopped; `stop()` cancels only the
   * second timer, so the first (timer 0) keeps running.
   */
  method ReconnectLeaksPoll() returns (p: Polls)
    ensures p.started == 2 && p.handle == Some(1) && p.running == {0}
  {
    var dev := new ThermostatDevice();
    var net := Net(true, true, true);
    var _ := dev.Update(net);
    dev.link.Disconnect();
    var _ := dev.Update(net);
    dev.Stop();
    p := dev.poll;
  }
}
