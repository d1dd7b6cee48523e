# Tuya thermostat bridge — a Dafny model

This project models the core of a Homebridge plugin that drives Tuya Wi-Fi
heating thermostats. It covers three parts:

- **The thermostat controller** (`ThermostatDevice`).
  - It keeps a cached power state and the current and target temperatures.
  - It connects to the device lazily and starts a keep-alive poll on each connect.
  - Both temperature setters apply one rule: heat iff current < target.
  - The cached power state changes only when the device pushes data.
- **The hub accessory** (`TuyaThermostatAccessory`).
  - The 5-second reconciliation tick copies the power state into the shared device record.
  - The tick runs a safety shutoff: a device that has been heating for `disableAfterSeconds` is forced off.
  - The getters and setters the hub calls for each characteristic.
- **The platform** (`TuyaHomebridgePlatform`).
  - It computes the HTTP port.
  - It collects cached accessories as the hub restores them.
  - At launch it registers one accessory per configured device.
  - The command bridge routes `/temp/<device-id>/<value>` requests to a device's `setCurrentTemperature`.

The modules follow the program's structure:

| file | module | contents |
|---|---|---|
| `js_value.dfy` | `JsValue` | `undefined`, `NaN`, `<` with non-numbers, `+`, truthiness |
| `js_string.dfy` | `JsString` | `split`, first-occurrence `replace`, `find`, and `Number()` on decimal text |
| `thermostat.dfy` | `Thermostat` | the controller class and its device link |
| `records.dfy` | `Records` | the configuration entry, the mutable device record, the hub accessory |
| `shutoff.dfy` | `Shutoff` | the tick's decision as a pure function, with lemmas over runs of ticks |
| `accessory.dfy` | `Accessory` | the accessory class |
| `platform.dfy` | `Platform` | the port, the request router, the registration plan and the platform class |

Code that changes state step by step is modelled as classes with `modifies` clauses:

- the controller's fields;
- the device record;
- the accessory's context slot;
- the platform's lists.

The device link is a `Link` object. It holds a `connected` flag and the log of every command issued on it (`Find`, `Connect`, `SetPower(on)`).

Effects outside the program are parameters:

- The outcome of the network steps in one call (whether discovery, the handshake and a power write succeed) is a `Net` value. A rejected promise is a `false` result.
- The tick takes the wall clock `now` in milliseconds.
- Calls made on the hub are appended to the platform's `hubCalls` log. Each entry records the accessory and the device record its context held at that moment.

Two behaviours may surprise a reader:

- One might expect a device's heating timer to end when the device turns off. In the code, the timer is cleared only by a forced turn-off (`src/platformAccessory.ts:86-102`); seeing the device off leaves the timer running. The model follows the code. `Shutoff.TimerSurvivesOffPeriod` shows a device forced off 5 s into its second heating period.
- The port is written `config.httpPort | 9990` (a bitwise or), not a default. `Platform.HttpPortAsWritten` models that expression. The platform class listens on the corrected port `Platform.HttpPort` instead; see the findings and "Left out".

## Model

| member | source | states |
|---|---|---|
| JsValue.Add | src/platformAccessory.ts:152 | `x + 1` is a number exactly when `x` is, and then lies strictly above `x` |
| JsString.IndexOf | src/platform.ts:117-121 | `find` by equality: no position iff absent; otherwise the first position holding the element |
| JsString.Split | src/platform.ts:102 | `split` of a one-character separator: never empty, separator-free pieces that join back to the input |
| JsString.SplitJoin | src/platform.ts:102 | splitting separator-free parts joined by the separator gives the parts back (round trip) |
| JsString.SplitNoSeparator | src/platform.ts:133 | a string without the separator splits into itself |
| JsString.SplitAtFirst | src/platform.ts:133 | splitting at the first separator gives the text before it, then the split of the rest |
| JsString.FirstPieceIsPrefix | src/platform.ts:133-136 | the first piece of a split is the text before the first separator, or the whole text without one |
| JsString.ReplaceFirst | src/platform.ts:136 | `replace` with a one-character pattern changes the first occurrence only, and nothing when there is none |
| JsString.ToNumber | src/platform.ts:137 | `Number()` of a text holding a ',' or a '%' is NaN |
| JsString.DecimalFraction | src/platform.ts:137 | `Number("<digits>.<digits>")` is the whole part plus the fraction |
| JsString.SignedNumber | src/platform.ts:137 | `Number()` of a '-' before an unsigned text is the negated value (NaN stays NaN), and a '+' changes nothing |
| JsString.NumberOfTwentyTwoFive | src/platform.ts:112-113 | `Number("22.5")` is 22.5 |
| JsString.NumberOfTwentyOneThree | src/platform.ts:135-137 | `Number("21.3")` is 21.3 |
| JsString.NumberOfTwoFive | src/platform.ts:137 | `Number("2.5")` is 2.5 |
| JsString.NumberOfMinusTwoFive | src/platform.ts:137 | `Number("-2.5")` is -2.5 |
| JsString.NumberOfDecimalText | src/platform.ts:137 | `Number()` reads back every natural number written in decimal, with or without a minus sign |
| Thermostat.Polls.Start | src/lib/thermostat.ts:49-51 | a new poll timer is started and its handle overwrites the stored one; earlier timers keep running |
| Thermostat.Polls.Cancel | src/lib/thermostat.ts:37-42 | only the stored timer is cancelled, and only when one was ever stored |
| Thermostat.Link.constructor | src/lib/thermostat.ts:21-26 | a new device link is not connected and has issued no command |
| Thermostat.Link.Disconnect | src/lib/thermostat.ts:90-92 | the link reported by `isConnected` can drop; nothing is issued |
| Thermostat.ReconnectLeaksPoll | src/lib/thermostat.ts:37-53 | update, a dropped link, update again, then stop: two poll timers were started, the stored handle is the second, and the first is still running after stop |
| Thermostat.ShouldHeat | src/lib/thermostat.ts:83-87 | the heat rule: heat iff both temperatures are numbers and current < target; equal temperatures never heat |
| Thermostat.PowerCommands | src/lib/thermostat.ts:98-108 | one power call issues the connect steps first; the requested write is issued iff the link is or becomes connected, and then it is the last command; the opposite write never is |
| Thermostat.ConnectSteps | src/lib/thermostat.ts:44-53 | the connect guard issues nothing iff connected, never a power write, and find then connect when the device is reachable |
| Thermostat.OnePowerWrite | src/lib/thermostat.ts:98-108 | one power call issues the requested write iff the link is or becomes connected, never the opposite write, and every write in the log follows a connect |
| Thermostat.ThermostatDevice.constructor | src/lib/thermostat.ts:8-26 | a new controller is off, at 10 target and 0 current, not connected, with no poll |
| Thermostat.ThermostatDevice.OnData | src/lib/thermostat.ts:28-30 | the data push sets the cached power state from the pushed field (absent reads as off) and nothing else |
| Thermostat.ThermostatDevice.Stop | src/lib/thermostat.ts:37-42 | stop cancels the stored poll only and leaves power state and temperatures alone |
| Thermostat.ThermostatDevice.Update | src/lib/thermostat.ts:44-53 | no-op when connected; otherwise find, connect, and a new poll once connected; succeeds iff the link ends connected |
| Thermostat.ThermostatDevice.TurnOn | src/lib/thermostat.ts:98-102 | connect if needed, then one `set(true)` if connected; the cached state is not touched |
| Thermostat.ThermostatDevice.TurnOff | src/lib/thermostat.ts:104-108 | connect if needed, then one `set(false)` if connected; the cached state is not touched |
| Thermostat.ThermostatDevice.SetTargetTemp | src/lib/thermostat.ts:63-72 | stores the target, keeps the reading, then issues one power write: on iff current < new target |
| Thermostat.ThermostatDevice.SetCurrentTemp | src/lib/thermostat.ts:78-88 | stores the reading, keeps the target, then issues one power write: on iff reading < target (equal means off) |
| Thermostat.ThermostatDevice.GetState | src/lib/thermostat.ts:55-57 | returns the cached power state, the same value `isOn` returns |
| Thermostat.ThermostatDevice.GetTargetTemp | src/lib/thermostat.ts:59-61 | returns the stored target |
| Thermostat.ThermostatDevice.GetCurrentTemp | src/lib/thermostat.ts:74-76 | returns the stored reading |
| Thermostat.ThermostatDevice.IsConnected | src/lib/thermostat.ts:90-92 | reports whether the device link is connected |
| Thermostat.ThermostatDevice.IsOn | src/lib/thermostat.ts:94-96 | returns the cached power state |
| Thermostat.ThermostatDevice.IsWarming | src/lib/thermostat.ts:110-112 | warming iff the cached state is on and current < target |
| Records.Device.constructor | src/platform.ts:68-71 | a record copies the configured name, id, key and limit, takes the UUID generated from the id (`Records.GenerateUuid`), and starts with no readings and no timer |
| Records.PlatformAccessory.constructor | src/platform.ts:89 | a new hub accessory has the device's name and UUID and an empty context |
| Shutoff.Policy | src/platformAccessory.ts:82-101 | the tick starts the timer iff a limit is set, no timer runs and the device is on; it forces a turn-off iff a limit is set, a timer runs and at least the limit has elapsed (`Shutoff.ElapsedSeconds`) |
| Shutoff.AfterTick | src/platformAccessory.ts:78-102 | a tick copies the power state; the timer starts iff the device is on, a limit is set and no timer runs; a running timer ends iff a forced turn-off succeeded after the limit was reached |
| Shutoff.ShutoffWindow | src/platformAccessory.ts:94-102 | for a non-negative limit, a timer that started no later than the last tick and had not yet reached the limit there (or started at it), later ticks at most `period` ms apart, and turn-offs that all succeed: every forced turn-off comes at least the limit and at most the limit plus one period after its timer started |
| Shutoff.RunningTimerShutoff | src/platformAccessory.ts:94-102 | while the device is seen on and turn-offs succeed, a running timer is first forced off at the first tick at least the limit after it started |
| Shutoff.RunningTimerHolds | src/platformAccessory.ts:94-99 | while the device is seen on and the limit is not reached, a running timer forces nothing |
| Shutoff.ContinuousHeatingShutoff | src/platformAccessory.ts:86-102 | a device seen on at every tick with no timer running: the first tick starts the timer, and the first forced turn-off comes at the first later tick at least the limit after it |
| Shutoff.ContinuousHeatingBeforeLimit | src/platformAccessory.ts:86-99 | a device seen on at every tick with no timer running is not forced off while the limit is not reached |
| Shutoff.ContinuousHeating | src/platformAccessory.ts:86-102 | example: ticks at 0, 5 and 10 s with a 10 s limit, device on: one forced turn-off, 10 s after the timer started |
| Shutoff.TimerSurvivesOffPeriod | src/platformAccessory.ts:86-102 | seeing the device off keeps the timer, so a second heating period is cut short |
| Accessory.RaiseGuard | src/platformAccessory.ts:148-151 | the guard `Accessory.RaisesTarget`: a recorded reading of 0 never triggers the target bump, even above the target; an absent reading or target never does; 21 over a target of 18 does |
| Accessory.TuyaThermostatAccessory.constructor | src/platformAccessory.ts:12-35 | the accessory takes the record from the context and owns a new controller: off, target 10, reading 0, not connected, no command issued, no poll |
| Accessory.TuyaThermostatAccessory.Tick | src/platformAccessory.ts:75-106 | a failed connect leaves the record alone; otherwise the record follows `AfterTick` and the only extra command is one `set(false)` on a forced turn-off |
| Accessory.TuyaThermostatAccessory.GetActive | src/platformAccessory.ts:109-115 | ACTIVE iff the controller is on |
| Accessory.TuyaThermostatAccessory.SetActive | src/platformAccessory.ts:117-123 | a truthy value turns on and any other turns off |
| Accessory.TuyaThermostatAccessory.GetCurrentHeatingCoolingState | src/platformAccessory.ts:125-131 | HEAT iff the controller is on and below target |
| Accessory.TuyaThermostatAccessory.GetTargetHeatingCoolingState | src/platformAccessory.ts:133-139 | HEAT iff the record's state is on |
| Accessory.TuyaThermostatAccessory.SetTargetHeatingCoolingState | src/platformAccessory.ts:141-155 | anything but HEAT turns off; HEAT turns on and, when the guard holds, raises both targets to the reading plus one; otherwise the targets are unchanged |
| Accessory.TuyaThermostatAccessory.RaiseTarget | src/platformAccessory.ts:152-153 | the target bump: the controller's target becomes the reading plus one and applies the heat rule, and the record holds the controller's new target |
| Accessory.TuyaThermostatAccessory.GetCurrentTemperature | src/platformAccessory.ts:162-164 | returns the record's reading |
| Accessory.TuyaThermostatAccessory.GetTargetTemperature | src/platformAccessory.ts:166-168 | returns the record's target |
| Accessory.TuyaThermostatAccessory.SetTargetTemperature | src/platformAccessory.ts:170-173 | the controller takes the target, and once that resolved the record holds the controller's target |
| Accessory.TuyaThermostatAccessory.SetCurrentTemperature | src/platformAccessory.ts:175-182 | the controller takes the reading and applies the heat rule, and once that resolved the record holds the reading |
| Accessory.TuyaThermostatAccessory.SetCurrentTemperatureAsWritten | src/platformAccessory.ts:175-177 | as written, the call always rejects after the controller acted, and the record keeps its old reading |
| Accessory.TargetBumpDeadAsWritten | src/platformAccessory.ts:148-154 | as written, after any sequence of readings a new accessory's record still has no reading and no target, so HEAT never raises the controller's target of 10 |
| Accessory.TuyaThermostatAccessory.GetDeviceId | src/platformAccessory.ts:192-194 | returns the record's id, which the command bridge compares against |
| Platform.ToUint32 | src/platform.ts:44 | an operand of the bitwise or is taken modulo 2^32: the result is in range and congruent to the operand, and a value in range is unchanged |
| Platform.Signed | src/platform.ts:44 | a 32-bit pattern read back as int32 lies in the signed range, and small patterns are unchanged |
| Platform.BitOrCovers | src/platform.ts:44 | `Platform.BitOr` never clears a bit: the result is at least each operand |
| Platform.BitOrBound | src/platform.ts:44 | the result of or-ing is at most the sum of the operands |
| Platform.BitOrZero | src/platform.ts:44 | or-ing with 0 changes nothing |
| Platform.HttpPortAsWritten | src/platform.ts:44 | with no configured port the server listens on 9990 |
| Platform.ConfiguredPortAsWritten | src/platform.ts:44 | as written, a configured port is or-ed with 9990, so the port used is at least 9990 and a configured port below 9990 is never used |
| Platform.HttpPort | src/platform.ts:44 | the configured port when set and non-zero, else 9990 |
| Platform.PortReadings | src/platform.ts:44 | both readings give 9990 without a setting, and differ on a configured 8080 |
| Platform.TempText | src/platform.ts:133-136 | the value text is no longer than the part before the first '%' and holds no '%' |
| Platform.TempTextOf | src/platform.ts:133-136 | the value text is everything before the first '%', with only its first ',' replaced |
| Platform.TempTextComma | src/platform.ts:133-136 | in a segment without '%', the first comma and only that one becomes a point |
| Platform.RouteAsWritten | src/platform.ts:99-152 | as written, the handler throws exactly on a 3-part `temp` request for a known id; every request of 4 or more parts with `temp` and a known id is applied to the first device with the id, with the value text of the fourth part |
| Platform.Route | src/platform.ts:99-152 | never throws; `error` is set iff the URI has fewer than 3 parts or lacks the value segment of a known-id request; with 3 or more parts a command other than `temp` is acknowledged with OK, and an unknown id gets the not-found reply naming it; a reading goes to the first device with the id, with the text before the first '%'; conversely every request of 4 or more parts with `temp` and a known id is applied that way |
| Platform.RouteTempRequest | src/platform.ts:112-137 | `/temp/<id>/<value>` reaches the first device with that id, or is a soft miss naming the id |
| Platform.RouteOtherRequest | src/platform.ts:115-151 | a URI `/<command>/<arg>` with any command other than `temp` is acknowledged with OK (`Route` states it for every URI of 3 or more parts) |
| Platform.RouteShortRequest | src/platform.ts:102-109 | a URI with at most one '/' is malformed |
| Platform.MissingValueSegment | src/platform.ts:133 | as written `/temp/<known id>` throws; the corrected handler reports it malformed |
| Platform.ReadingWithUnit | src/platform.ts:112-137 | `22.5%C2%B0C` is read as 22.5 |
| Platform.ReadingWithComma | src/platform.ts:133-137 | `21,3` is read as 21.3 |
| Platform.ReadingNegativeComma | src/platform.ts:133-137 | `-2,5` becomes `-2.5` and is read as -2.5 |
| Platform.ReadingWithCommas | src/platform.ts:133-137 | in `1,2,3` only the first comma becomes a point, and the reading is NaN |
| Platform.RegistrationOf | src/platform.ts:74-76 | a device reuses the first cached accessory with its UUID, and a new accessory is created iff none has it |
| Platform.ReuseIsInjective | src/platform.ts:73-95 | with distinct configured ids, no cached accessory is reused for two devices |
| Platform.TuyaHomebridgePlatform.constructor | src/platform.ts:31-48 | the port is the corrected `HttpPort` of the configured setting; nothing is cached or registered |
| Platform.TuyaHomebridgePlatform.ConfigureAccessory | src/platform.ts:54-59 | a restored accessory is appended to the cache |
| Platform.ContextsPlannedNext | src/platform.ts:76-91 | one loop pass moves the context slots one step along the plan: a reused accessory's slot takes the new record, all others stay |
| Platform.LastReuseContext | src/platform.ts:76-80 | after the loop a cached accessory's slot holds the record of the last device that reused it |
| Platform.UntouchedContext | src/platform.ts:73-95 | a cached accessory that no device reused keeps the record it had before the loop |
| Platform.TuyaHomebridgePlatform.DiscoverDevices | src/platform.ts:66-96 | one registered accessory and one hub call per configured device, in order, following the plan; a created accessory's slot holds its device's record; every cached accessory's slot is as the plan leaves it (the last reusing device's record, else unchanged); a cached accessory's record changes only with an update call that carries the new record; every new accessory starts fresh (`Accessory.StartsFresh`: record off with no reading, target or timer; controller off at target 10, reading 0, not connected, no command, no poll) |
| Platform.TuyaHomebridgePlatform.RegisterNext | src/platform.ts:74-95 | one loop pass of the discovery loop: the device is registered as the plan says, one hub call is logged, and the context slots move one step along the plan; every accessory registered so far still starts fresh |
| Platform.TuyaHomebridgePlatform.RegisterDevice | src/platform.ts:74-95 | one loop pass: a new record, put on the cached accessory (update call) or on a new one (register call), and a new accessory appended, which starts fresh (`Accessory.StartsFresh`) |
| Platform.TuyaHomebridgePlatform.Track | src/platform.ts:83-93 | the new accessory is appended to the registered ones |
| Platform.TuyaHomebridgePlatform.HttpHandler | src/platform.ts:99-152 | the corrected handler: replies as the corrected `Route` decides; a reading goes to the first matching device: its controller takes the reading, keeps target and power state and issues the heat rule's power write; with the corrected `SetCurrentTemperature` the record then holds the reading (as written it never does); no other device changes |

## Left out

- The TuyAPI transport is replaced by the `Link` command log. Left out: encryption, the protocol version, the `get` request of the 100 ms poll, and the `error` event.
- Timers and interleaving are not modelled. `setInterval` starts are counted in `Polls`. One tick is one method call with `now`. Ticks and setters that overlap in time are not modelled.
- One `Net` value covers all network steps of one call, so outcomes cannot differ between steps of the same kind in that call.
- Unawaited promises are treated as completed in order. The target bump in `setTargetHeatingCoolingState` and the handler's `setCurrentTemperature` call are not awaited. A rejection there does not reach the caller.
- The Homebridge API is not modelled. Left out: services, `setCharacteristic`, `updateValue` and characteristic constants. The constants become small enumerations, and `HEAT` is 1.
- Logging is not modelled.
- `getTemperatureDisplayUnits` and `setTemperatureDisplayUnits` only log or return a constant. They are not modelled.
- `HttpService` (the HTTP server) is not part of this model. Only the handler is.
- `src/e2e/test_e2e.ts` and `src/e2e/tuya_e2e.ts` are scripts against real hardware. They are not modelled.
- JsString.ToNumber: reads only optionally signed decimal digits with at most one point. Whitespace trimming, exponents, hexadecimal and `Infinity` are not modelled, because the bridge's readings arrive as plain decimals. An empty text reads as 0, as in JavaScript.
- Floating point is replaced by exact reals.
- `uuid.generate` is taken as collision-free (an injective constructor).
- `device.state` starts out `undefined` in the source. Every reader only tests its truthiness, so it starts as `false` here.
- The devices are built one per loop pass instead of by a `map` before the loop. No other code runs in between, so the order of effects is unchanged.
- Platform.HttpPortAsWritten: takes the configured port as an integer. Non-integer and non-numeric settings, which `ToInt32` also converts, are not modelled.
- Platform.ConfiguredPortAsWritten: states its bounds only for configured values that are TCP ports (below 65536).
- Accessory.TuyaThermostatAccessory.SetActive: takes the characteristic value as a number. The truthiness of booleans and strings is not modelled.
- Platform.TuyaHomebridgePlatform.constructor: listens on the corrected port `Platform.HttpPort`, not on the bitwise or the code computes (`Platform.HttpPortAsWritten`, see the findings). A configured port is therefore used as it is, which the code does not do.
- Platform.TuyaHomebridgePlatform.HttpHandler: dispatches through the corrected `Platform.Route`, not `Platform.RouteAsWritten`, and calls the corrected `SetCurrentTemperature`, not `SetCurrentTemperatureAsWritten` (see the findings). As written, a `/temp/<known id>` request throws and a reading never reaches the record.
- `config.devices` absent: `configDevices.map` throws a TypeError at `src/platform.ts:67-69`. This is not modelled; the configured devices are a sequence, possibly empty.
- Platform.TuyaHomebridgePlatform.DiscoverDevices: says accessories are new through the platform invariant and `RegisterDevice`. The invariant keeps registered accessories' footprints disjoint, and `RegisterDevice` ensures its accessory is fresh. `DiscoverDevices`' own contract does not restate that they are newly allocated; it states their starting values through `Accessory.StartsFresh`.

## Findings

| source | as written | input that shows it | evidently intended | confidence | as-written member | corrected member |
|---|---|---|---|---|---|---|
| src/platformAccessory.ts:177 | `device.currentTemp = value` names no variable in scope, so the call throws a ReferenceError after the controller acted; the record never holds a reading | any reading, e.g. `/temp/<known id>/21` | `this.device.currentTemp = value` | not executed | Accessory.TuyaThermostatAccessory.SetCurrentTemperatureAsWritten | Accessory.TuyaThermostatAccessory.SetCurrentTemperature |
| src/platform.ts:133 | with exactly 3 parts, `parts[3]` is `undefined` and `.split` throws a TypeError instead of returning a reply | `/temp/<known id>` | report the URI as malformed | not executed | Platform.MissingValueSegment | Platform.Route |
| src/platform.ts:44 | the configured port is combined with 9990 by a bitwise or instead of defaulting to it | `httpPort: 8080` listens on a port other than 8080 | 9990 only when no port is configured (a logical or) | not executed | Platform.ConfiguredPortAsWritten | Platform.HttpPort |

Apart from these three rows, behaviours are kept as written. Each is stated by a lemma or contract:

- The heating timer survives the device turning off by itself (`Shutoff.TimerSurvivesOffPeriod`).
- Only the first comma of a reading is replaced (`Platform.ReadingWithCommas`).
- A recorded reading of 0 counts as no reading in the target bump (`Accessory.RaiseGuard`).
- A reconnect starts a new poll timer and overwrites the stored handle, so `stop()` can cancel only the latest one (`Thermostat.Polls.Start`, `Thermostat.Polls.Cancel`, `Thermostat.ReconnectLeaksPoll`).
- As written, the target bump on HEAT (`src/platformAccessory.ts:148-154`) is dead code. The record's reading is set only by `setCurrentTemperature`, and as written that line throws (first row above), so the guard never holds (`Accessory.TargetBumpDeadAsWritten`). The model's `SetTargetHeatingCoolingState` keeps the bump, which takes effect only with the corrected `SetCurrentTemperature`.
