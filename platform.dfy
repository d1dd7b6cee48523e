/**
 * The platform: the HTTP port it listens on, the registration of one
 * accessory per configured device at launch, and the command bridge that
 * routes `/temp/<device-id>/<value>` requests to a device's
 * `setCurrentTemperature`.
 */
module Platform {
  import opened JsValue
  import opened JsString
  import opened Thermostat
  import opened Records
  import opened Accessory

  // ---- HTTP port ----

  const DEFAULT_HTTP_PORT: int := 9990

  const TWO_32: int := 0x1_0000_0000
  const TWO_31: int := 0x8000_0000

  /** ToUint32 on an integer: its value modulo 2^32 */
  function ToUint32(n: int): (u: nat)
    ensures u < TWO_32 && (0 <= n < TWO_32 ==> u == n)
    ensures (u - n) % TWO_32 == 0
  {
    n % TWO_32
  }

  /** A 32-bit pattern read back as a signed number (the last step of ToInt32) */
  function Signed(u: nat): (i: int)
    requires u < TWO_32
    ensures -TWO_31 <= i < TWO_31 && (u < TWO_31 ==> i == u)
  {
    if u < TWO_31 then u else u - TWO_32
  }

  /** Bitwise or of two bit patterns, bit by bit from the lowest */
  function BitOr(a: nat, b: nat): nat
    decreases a + b
  {
    if a == 0 && b == 0 then 0
    else 2 * BitOr(a / 2, b / 2) + (if a % 2 == 1 || b % 2 == 1 then 1 else 0)
  }

  /** Or-ing never clears a bit: the result is at least each operand */
  lemma {:induction false} BitOrCovers(a: nat, b: nat)
    ensures a <= BitOr(a, b) && b <= BitOr(a, b)
    decreases a + b
  {
    if a != 0 || b != 0 {
      BitOrCovers(a / 2, b / 2);
    }
  }

  /** Or-ing never exceeds the sum of the operands */
  lemma {:induction false} BitOrBound(a: nat, b: nat)
    ensures BitOr(a, b) <= a + b
    decreases a + b
  {
    if a != 0 || b != 0 {
      BitOrBound(a / 2, b / 2);
    }
  }

  /** Or-ing with no bits set changes nothing */
  lemma {:induction false} BitOrZero(b: nat)
    ensures BitOr(0, b) == b
    decreases b
  {
    if b != 0 {
      BitOrZero(b / 2);
    }
  }

  /**
   * `config.httpPort | 9990` as written: both operands are taken to int32 and
   * or-ed bit by bit; an absent setting reads as 0.
   */
  function HttpPortAsWritten(setting: Option<int>): (port: int)
    ensures setting.None? ==> port == DEFAULT_HTTP_PORT
  {
    var n := if setting.Some? then setting.value else 0;
    BitOrZero(9990);
    Signed(BitOr(ToUint32(n), 9990) % TWO_32)
  }

  /**
   * As written, a configured TCP port is or-ed with 9990: the server listens
   * on a port no smaller than either, so any configured port below 9990 is
   * never the one used.
   */
  lemma {:induction false} ConfiguredPortAsWritten(n: int)
    requires 0 <= n < 0x1_0000
    ensures HttpPortAsWritten(Some(n)) == BitOr(n, 9990)
    ensures n <= HttpPortAsWritten(Some(n)) && DEFAULT_HTTP_PORT <= HttpPortAsWritten(Some(n))
    ensures n < DEFAULT_HTTP_PORT ==> HttpPortAsWritten(Some(n)) != n
  {
    BitOrBound(n, 9990);
    BitOrCovers(n, 9990);
  }

  /** `config.httpPort || 9990`: the configured port when set and non-zero, else 9990 */
  function HttpPort(setting: Option<int>): (port: int)
    ensures setting.Some? && setting.value != 0 ==> port == setting.value
    ensures setting.None? || setting.value == 0 ==> port == DEFAULT_HTTP_PORT
  {
    if setting.Some? && setting.value != 0 then setting.value else DEFAULT_HTTP_PORT
  }

  /** Both readings agree when no port is configured, and differ on a configured 8080 */
  lemma PortReadings()
    ensures HttpPort(None) == HttpPortAsWritten(None) == DEFAULT_HTTP_PORT
    ensures HttpPort(Some(8080)) == 8080 != HttpPortAsWritten(Some(8080))
  {
    ConfiguredPortAsWritten(8080);
  }

  // ---- command bridge ----

  /** The `{error, message}` record the handler returns */
  datatype Reply = Reply(error: bool, message: string)

  const MALFORMED := Reply(true, "Malformed uri")
  const PASS := Reply(false, "OK")

  function NotFound(id: string): Reply {
    Reply(false, "Device id: " + id + " not found")
  }

  function Updated(id: string, temp: string): Reply {
    Reply(false, "Updated accessory " + id + " current temperature to: " + temp)
  }

  /** What a request leads to: a reply with no effect, a reading for the device at `index`, or a thrown TypeError */
  datatype Dispatch = Respond(reply: Reply) | Apply(index: nat, id: string, temp: string) | Crash

  /** The text handed to `Number()`: the segment up to its first '%', with its first ',' made '.' */
  function TempText(segment: string): (t: string)
    ensures |t| == |Split(segment, '%')[0]| && '%' !in t
  {
    var head := Split(segment, '%')[0];
    var t := ReplaceFirst(head, ',', '.');
    assert '%' !in t by {
      if IndexOf(head, ',').Some? {
        var k := IndexOf(head, ',').value;
        assert t == head[..k] + ['.'] + head[k + 1..];
        assert head == head[..k] + [head[k]] + head[k + 1..];
      }
    }
    t
  }

  /**
   * The handler as written: split on '/', fewer than 3 parts is malformed,
   * a first segment other than `temp` is passed through, an unknown id is a
   * soft miss; with a known id, `parts[3]` is read even when there are only
   * 3 parts, which throws.
   */
  function RouteAsWritten(uri: string, ids: seq<string>): (d: Dispatch)
    ensures d.Crash? <==>
      var parts := Split(uri, '/'); |parts| == 3 && parts[1] == "temp" && parts[2] in ids
    ensures d.Apply? ==> d.index < |ids| && ids[d.index] == d.id && d.id !in ids[..d.index]
    ensures var parts := Split(uri, '/');
      |parts| > 3 && parts[1] == "temp" && parts[2] in ids ==> d == Apply(IndexOf(ids, parts[2]).value, parts[2], TempText(parts[3]))
  {
    var parts := Split(uri, '/');
    if |parts| < 3 then Respond(MALFORMED)
    else if parts[1] != "temp" then Respond(PASS)
    else
      match IndexOf(ids, parts[2])
      case None => Respond(NotFound(parts[2]))
      case Some(k) => if |parts| == 3 then Crash else Apply(k, parts[2], TempText(parts[3]))
  }

  /** The handler with the missing value segment reported as malformed instead of thrown */
  function Route(uri: string, ids: seq<string>): (d: Dispatch)
    ensures !d.Crash?
    ensures d.Respond? && d.reply.error <==>
      var parts := Split(uri, '/'); |parts| < 3 || (|parts| == 3 && parts[1] == "temp" && parts[2] in ids)
    ensures var parts := Split(uri, '/');
      |parts| >= 3 && parts[1] != "temp" ==> d == Respond(PASS)
    ensures var parts := Split(uri, '/');
      |parts| >= 3 && parts[1] == "temp" && parts[2] !in ids ==> d == Respond(NotFound(parts[2]))
    ensures d.Apply? ==>
      var parts := Split(uri, '/');
      && |parts| > 3 && parts[1] == "temp" && parts[2] == d.id
      && d.index < |ids| && ids[d.index] == d.id && d.id !in ids[..d.index]
      && d.temp == TempText(parts[3])
    ensures var parts := Split(uri, '/');
      |parts| > 3 && parts[1] == "temp" && parts[2] in ids ==> d == Apply(IndexOf(ids, parts[2]).value, parts[2], TempText(parts[3]))
  {
    var d := RouteAsWritten(uri, ids);
    if d.Crash? then Respond(MALFORMED) else d
  }

  /** A `/temp/<id>/<value>` request reaches the first device with that id, or is a soft miss */
  lemma {:induction false} RouteTempRequest(id: string, value: string, ids: seq<string>)
    requires '/' !in id && '/' !in value
    ensures var d := Route("/temp/" + id + "/" + value, ids);
      && (id in ids ==> d == Apply(IndexOf(ids, id).value, id, TempText(value)))
      && (id !in ids ==> d == Respond(NotFound(id)))
  {
    var parts := ["", "temp", id, value];
    JoinFour(parts);
    SplitJoin(parts, '/');
  }

  /** `/<command>/<arg>` with any command but `temp` is acknowledged and changes nothing */
  lemma {:induction false} RouteOtherRequest(command: string, arg: string, ids: seq<string>)
    requires '/' !in command && '/' !in arg && command != "temp"
    ensures Route("/" + command + "/" + arg, ids) == Respond(PASS)
  {
    var parts := ["", command, arg];
    assert Join(parts, '/') == "/" + command + "/" + arg by {
      assert Join(parts[2..], '/') == arg;
      assert parts[1..][1..] == parts[2..];
    }
    SplitJoin(parts, '/');
  }

  /** A request with at most one '/' is malformed */
  lemma {:induction false} RouteShortRequest(a: string, b: string, ids: seq<string>)
    requires '/' !in a && '/' !in b
    ensures Route(a, ids) == Respond(MALFORMED)
    ensures Route(a + "/" + b, ids) == Respond(MALFORMED)
  {
    SplitNoSeparator(a, '/');
    SplitAtFirst(a, b, '/');
    SplitNoSeparator(b, '/');
  }

  /** As written, `/temp/<known id>` throws; the corrected handler reports it malformed */
  lemma {:induction false} MissingValueSegment(id: string, ids: seq<string>)
    requires '/' !in id && id in ids
    ensures RouteAsWritten("/temp/" + id, ids) == Crash
    ensures Route("/temp/" + id, ids) == Respond(MALFORMED)
  {
    var parts := ["", "temp", id];
    assert Join(parts, '/') == "/temp/" + id by {
      assert Join(parts[2..], '/') == id;
      assert parts[1..][1..] == parts[2..];
    }
    SplitJoin(parts, '/');
  }

  lemma JoinFour(parts: seq<string>)
    requires |parts| == 4 && parts[0] == "" && parts[1] == "temp"
    ensures Join(parts, '/') == "/temp/" + parts[2] + "/" + parts[3]
  {
    var tail := parts[2] + "/" + parts[3];
    assert parts[2..][1..] == parts[3..] && parts[1..][1..] == parts[2..];
    assert Join(parts[3..], '/') == parts[3];
    assert Join(parts[2..], '/') == tail;
    assert Join(parts[1..], '/') == "temp" + "/" + tail;
    assert Join(parts, '/') == "" + "/" + ("temp" + "/" + tail);
    assert "" + "/" + ("temp" + "/" + tail) == "/temp/" + parts[2] + "/" + parts[3];
  }

  /** The value text is everything before the first '%', with only the first ',' replaced */
  lemma {:induction false} TempTextOf(value: string, suffix: string)
    requires '%' !in value
    ensures TempText(value) == ReplaceFirst(value, ',', '.')
    ensures TempText(value + "%" + suffix) == ReplaceFirst(value, ',', '.')
  {
    SplitNoSeparator(value, '%');
    SplitAtFirst(value, suffix, '%');
  }

  /** A reading with a degree suffix, `22.5%C2%B0C`, is 22.5 */
  lemma ReadingWithUnit()
    ensures TempText("22.5%C2%B0C") == "22.5" && ToNumber("22.5") == Val(22.5)
  {
    SplitAtFirst("22.5", "C2%B0C", '%');
    assert "22.5%C2%B0C" == "22.5" + ['%'] + "C2%B0C";
    assert IndexOf("22.5", ',').None?;
    NumberOfTwentyTwoFive();
  }

  /** A segment without '%' has its first comma, and only that one, made a point */
  lemma TempTextComma(a: string, b: string)
    requires ',' !in a && '%' !in a + [','] + b
    ensures TempText(a + [','] + b) == a + ['.'] + b
  {
    var s := a + [','] + b;
    SplitNoSeparator(s, '%');
    FirstAfterPrefix(a, ',', b);
    assert s[..|a|] == a && s[|a| + 1..] == b;
  }

  /** A reading with a decimal comma, `21,3`, is 21.3 */
  lemma ReadingWithComma()
    ensures TempText("21,3") == "21.3" && ToNumber("21.3") == Val(21.3)
  {
    assert "21,3" == "21" + [','] + "3";
    TempTextComma("21", "3");
    assert "21" + ['.'] + "3" == "21.3";
    NumberOfTwentyOneThree();
  }

  /** A negative reading with a decimal comma, `-2,5`, is -2.5 */
  lemma ReadingNegativeComma()
    ensures TempText("-2,5") == "-2.5" && ToNumber("-2.5") == Val(-2.5)
  {
    assert "-2,5" == "-2" + [','] + "5";
    TempTextComma("-2", "5");
    assert "-2" + ['.'] + "5" == "-2.5";
    NumberOfMinusTwoFive();
  }

  /** Only the first comma becomes a point: `1,2,3` is read as `1.2,3`, which is NaN */
  lemma ReadingWithCommas()
    ensures TempText("1,2,3") == "1.2,3" && ToNumber("1.2,3") == NaN
  {
    assert "1,2,3" == "1" + [','] + "2,3";
    TempTextComma("1", "2,3");
    assert "1" + ['.'] + "2,3" == "1.2,3";
    assert "1.2,3"[3] == ',';
  }

  // ---- discovery ----

  /** What launch does for one configured device: reuse the cached accessory at `index`, or create one */
  datatype Registration = Reuse(index: nat) | Create

  /** The UUIDs of the cached accessories, in order */
  function Uuids(accessories: seq<PlatformAccessory>): (us: seq<Uuid>)
    ensures |us| == |accessories| && forall i :: 0 <= i < |us| ==> us[i] == accessories[i].uuid
  {
    seq(|accessories|, i requires 0 <= i < |accessories| => accessories[i].uuid)
  }

  /** The first cached accessory with the device's UUID is reused; without one, a new accessory is created */
  function RegistrationOf(cached: seq<Uuid>, cfg: DeviceConfig): (r: Registration)
    ensures r.Create? <==> GenerateUuid(cfg.id) !in cached
    ensures r.Reuse? ==>
      r.index < |cached| && cached[r.index] == GenerateUuid(cfg.id) && GenerateUuid(cfg.id) !in cached[..r.index]
  {
    match IndexOf(cached, GenerateUuid(cfg.id))
    case Some(k) => Reuse(k)
    case None => Create
  }

  function Plan(cached: seq<Uuid>, configs: seq<DeviceConfig>): (plan: seq<Registration>)
    ensures |plan| == |configs|
  {
    seq(|configs|, i requires 0 <= i < |configs| => RegistrationOf(cached, configs[i]))
  }

  /** With distinct device ids, no cached accessory is reused for two devices */
  lemma {:induction false} ReuseIsInjective(cached: seq<Uuid>, configs: seq<DeviceConfig>)
    requires forall i, j :: 0 <= i < j < |configs| ==> configs[i].id != configs[j].id
    ensures var plan := Plan(cached, configs);
      forall i, j :: 0 <= i < j < |plan| && plan[i].Reuse? && plan[j].Reuse? ==> plan[i].index != plan[j].index
  {
    var plan := Plan(cached, configs);
    forall i, j | 0 <= i < j < |plan| && plan[i].Reuse? && plan[j].Reuse?
      ensures plan[i].index != plan[j].index
    {
      assert plan[i] == RegistrationOf(cached, configs[i]) && plan[j] == RegistrationOf(cached, configs[j]);
    }
  }

  /** A call on the hub: the accessory handed over, with the device record its context held at that moment */
  datatype HubCall =
    | RegisterAccessory(accessory: PlatformAccessory, device: Device?)
    | UpdateAccessory(accessory: PlatformAccessory, device: Device?)

  /** The hub call for a registered accessory: a created one is registered, a reused one updated */
  function HubCallOf(acc: TuyaThermostatAccessory, r: Registration): HubCall {
    if r.Create? then RegisterAccessory(acc.accessory, acc.device) else UpdateAccessory(acc.accessory, acc.device)
  }

  /** The registered accessory is built for this configured device */
  ghost predicate BuiltFor(acc: TuyaThermostatAccessory, cfg: DeviceConfig) {
    && acc.device.id == cfg.id && acc.device.name == cfg.name && acc.device.key == cfg.key
    && acc.device.disableAfterSeconds == cfg.disableAfterSeconds
    && acc.device.uuid == GenerateUuid(cfg.id) && acc.accessory.uuid == acc.device.uuid
  }

  /**
   * The registered accessory is built for this configured device and sits on
   * the cached accessory the plan reuses, or on one that is not in the cache
   */
  ghost predicate Registered(acc: TuyaThermostatAccessory, cfg: DeviceConfig, r: Registration, cached: seq<PlatformAccessory>) {
    && BuiltFor(acc, cfg)
    && match r
       case Reuse(k) => k < |cached| && acc.accessory == cached[k]
       case Create => acc.accessory !in cached
  }

  /** Pass `j` of the plan reuses the cached accessory object `a` */
  ghost predicate ReusesObject(cached: seq<PlatformAccessory>, plan: seq<Registration>, j: int, a: PlatformAccessory) {
    0 <= j < |plan| && plan[j].Reuse? && plan[j].index < |cached| && cached[plan[j].index] == a
  }

  /** No pass from `from` up to (not including) `to` reuses the cached accessory object `a` */
  ghost predicate NotReusedBetween(cached: seq<PlatformAccessory>, plan: seq<Registration>, from: int, to: int, a: PlatformAccessory) {
    forall j :: from <= j < to ==> !ReusesObject(cached, plan, j, a)
  }

  /** The context slot of each cached accessory, in order */
  function Contexts(cached: seq<PlatformAccessory>): (cs: seq<Device?>)
    reads set a | a in cached
    ensures |cs| == |cached| && forall k :: 0 <= k < |cs| ==> cs[k] == cached[k].device
  {
    if cached == [] then [] else [cached[0].device] + Contexts(cached[1..])
  }

  /**
   * The context slots the plan leaves once the passes that registered `regs`
   * have run, starting from `before`: a pass that reuses a cached accessory
   * puts its record on that accessory object, wherever it sits in the cache;
   * a pass that creates an accessory leaves the cache alone.
   */
  function ContextsPlanned(cached: seq<PlatformAccessory>, before: seq<Device?>, plan: seq<Registration>, regs: seq<TuyaThermostatAccessory>): (cs: seq<Device?>)
    requires |before| == |cached| && |regs| <= |plan|
    ensures |cs| == |cached|
    decreases |regs|
  {
    if regs == [] then before
    else
      var n := |regs| - 1;
      var prev := ContextsPlanned(cached, before, plan, regs[..n]);
      match plan[n]
      case Create => prev
      case Reuse(k) =>
        seq(|cached|, m requires 0 <= m < |cached| => if k < |cached| && cached[m] == cached[k] then regs[n].device else prev[m])
  }

  /**
   * One more pass: the contexts after it are those before it, with the pass's
   * record on its accessory if that accessory is cached
   */
  lemma ContextsPlannedNext(cached: seq<PlatformAccessory>, before: seq<Device?>, plan: seq<Registration>,
                            regs: seq<TuyaThermostatAccessory>, acc: TuyaThermostatAccessory, prev: seq<Device?>, next: seq<Device?>)
    requires |before| == |cached| && |regs| < |plan| && |next| == |cached|
    requires prev == ContextsPlanned(cached, before, plan, regs)
    requires plan[|regs|].Reuse? ==> plan[|regs|].index < |cached| && cached[plan[|regs|].index] == acc.accessory
    requires plan[|regs|].Create? ==> acc.accessory !in cached
    requires forall m :: 0 <= m < |cached| ==> next[m] == if cached[m] == acc.accessory then acc.device else prev[m]
    ensures next == ContextsPlanned(cached, before, plan, regs + [acc])
  {
    assert (regs + [acc])[..|regs|] == regs;
  }

  /** A reused accessory holds the record of the last pass that reused it */
  lemma {:induction false} LastReuseContext(cached: seq<PlatformAccessory>, before: seq<Device?>, plan: seq<Registration>,
                                            regs: seq<TuyaThermostatAccessory>, j: nat, m: nat)
    requires |before| == |cached| && |regs| <= |plan|
    requires j < |regs| && plan[j].Reuse? && plan[j].index < |cached| && m < |cached| && cached[m] == cached[plan[j].index]
    requires NotReusedBetween(cached, plan, j + 1, |regs|, cached[m])
    ensures ContextsPlanned(cached, before, plan, regs)[m] == regs[j].device
    decreases |regs|
  {
    var n := |regs| - 1;
    if j < n {
      assert !ReusesObject(cached, plan, n, cached[m]);
      assert NotReusedBetween(cached, plan, j + 1, n, cached[m]);
      assert regs[..n][j] == regs[j];
      LastReuseContext(cached, before, plan, regs[..n], j, m);
    }
  }

  /** A cached accessory that no pass reused keeps its context */
  lemma {:induction false} UntouchedContext(cached: seq<PlatformAccessory>, before: seq<Device?>, plan: seq<Registration>,
                                            regs: seq<TuyaThermostatAccessory>, m: nat)
    requires |before| == |cached| && |regs| <= |plan| && m < |cached|
    requires NotReusedBetween(cached, plan, 0, |regs|, cached[m])
    ensures ContextsPlanned(cached, before, plan, regs)[m] == before[m]
    decreases |regs|
  {
    if regs != [] {
      var n := |regs| - 1;
      assert !ReusesObject(cached, plan, n, cached[m]);
      assert NotReusedBetween(cached, plan, 0, n, cached[m]);
      UntouchedContext(cached, before, plan, regs[..n], m);
    }
  }

  function DeviceIds(regs: seq<TuyaThermostatAccessory>): (ids: seq<string>)
    ensures |ids| == |regs| && forall i :: 0 <= i < |ids| ==> ids[i] == regs[i].device.id
  {
    seq(|regs|, i requires 0 <= i < |regs| => regs[i].device.id)
  }

  class TuyaHomebridgePlatform {
    const configDevices: seq<DeviceConfig>
    const httpPort: int
    var accessories: seq<PlatformAccessory>
    var registeredDevices: seq<TuyaThermostatAccessory>
    /** The calls made on the hub, in order */
    var hubCalls: seq<HubCall>
    /** Every object the registered accessories change */
    ghost var Repr: set<object>

    ghost predicate Valid()
      reads this, Repr
    {
      && this !in Repr
      && (forall i :: 0 <= i < |registeredDevices| ==> registeredDevices[i].Repr() <= Repr)
      && (forall i :: 0 <= i < |registeredDevices| ==> registeredDevices[i].Valid())
      && (forall i, j :: 0 <= i < j < |registeredDevices| ==> registeredDevices[i].Repr() !! registeredDevices[j].Repr())
    }

    /** The port comes from the configuration (see HttpPort); nothing is registered yet */
    constructor (configDevices: seq<DeviceConfig>, httpPortSetting: Option<int>)
      ensures Valid()
      ensures this.configDevices == configDevices && httpPort == HttpPort(httpPortSetting)
      ensures accessories == [] && registeredDevices == [] && hubCalls == []
    {
      this.configDevices := configDevices;
      httpPort := HttpPort(httpPortSetting);
      accessories, registeredDevices, hubCalls := [], [], [];
      Repr := {};
    }

    /** The hub hands back an accessory restored from its cache */
    method ConfigureAccessory(accessory: PlatformAccessory)
      requires Valid()
      modifies this
      ensures Valid() && Repr == old(Repr)
      ensures accessories == old(accessories) + [accessory]
      ensures registeredDevices == old(registeredDevices) && hubCalls == old(hubCalls)
    {
      accessories := accessories + [accessory];
    }

    /**
     * Registers one accessory per configured device, in order: the first cached
     * accessory with the device's UUID gets the new record in its context and
     * is handed back to the hub as updated; otherwise a new accessory holding
     * the record is created and registered with the hub.
     */
    method DiscoverDevices()
      requires Valid()
      modifies this, set a | a in accessories
      ensures Valid() && old(Repr) <= Repr
      ensures accessories == old(accessories)
      ensures var plan := Plan(Uuids(accessories), configDevices);
        var o := |old(registeredDevices)|;
        && |registeredDevices| == o + |configDevices|
        && registeredDevices[..o] == old(registeredDevices)
        && (forall i :: 0 <= i < |configDevices| ==> Registered(registeredDevices[o + i], configDevices[i], plan[i], accessories))
        && |hubCalls| == |old(hubCalls)| + |configDevices| && hubCalls[..|old(hubCalls)|] == old(hubCalls)
        && (forall i :: 0 <= i < |configDevices| ==>
              hubCalls[|old(hubCalls)| + i] == HubCallOf(registeredDevices[o + i], plan[i]))
        && (forall k :: 0 <= k < |accessories| && accessories[k].device != old(accessories[k].device) ==>
              UpdateAccessory(accessories[k], accessories[k].device) in hubCalls[|old(hubCalls)|..])
    ensures forall i :: |old(registeredDevices)| <= i < |registeredDevices| ==> StartsFresh(registeredDevices[i])
    ensures var o := |old(registeredDevices)|;
      forall i :: 0 <= i < |configDevices| && Plan(Uuids(accessories), configDevices)[i].Create? ==>
        registeredDevices[o + i].accessory.device == registeredDevices[o + i].device
    ensures var planned := ContextsPlanned(accessories, old(Contexts(accessories)), Plan(Uuids(accessories), configDevices),
                                           registeredDevices[|old(registeredDevices)|..]);
      forall m :: 0 <= m < |accessories| ==> accessories[m].device == planned[m]
    {
      ghost var plan := Plan(Uuids(accessories), configDevices);
      ghost var o, h := |registeredDevices|, |hubCalls|;
      ghost var before := Contexts(accessories);
      var i := 0;
      while i < |configDevices|
        invariant 0 <= i <= |configDevices|
        invariant accessories == old(accessories)
        invariant |registeredDevices| == o + i && registeredDevices[..o] == old(registeredDevices)
        invariant Valid()
        invariant old(Repr) <= Repr
        invariant forall j :: 0 <= j < i ==> Registered(registeredDevices[o + j], configDevices[j], plan[j], accessories)
        invariant |hubCalls| == h + i && hubCalls[..h] == old(hubCalls)
        invariant forall j :: 0 <= j < i ==> hubCalls[h + j] == HubCallOf(registeredDevices[o + j], plan[j])
        invariant forall k :: 0 <= k < |accessories| && accessories[k].device != before[k] ==>
          UpdateAccessory(accessories[k], accessories[k].device) in hubCalls[h..]
        invariant forall j :: 0 <= j < i && plan[j].Create? ==> registeredDevices[o + j].accessory.device == registeredDevices[o + j].device
        invariant forall m {:trigger ContextsPlanned(accessories, before, plan, registeredDevices[o..])[m]} :: 0 <= m < |accessories| ==>
          accessories[m].device == ContextsPlanned(accessories, before, plan, registeredDevices[o..])[m]
        invariant forall j :: o <= j < |registeredDevices| ==> StartsFresh(registeredDevices[j])
      {
        assert plan[i] == RegistrationOf(Uuids(accessories), configDevices[i]);
        var _ := RegisterNext(i, plan, o, h, before);
        i := i + 1;
      }
    }

    /**
     * One pass of the discovery loop, keeping what the loop tracks about the
     * context slots: created accessories hold their own record, and the cache
     * holds the contexts the plan's passes so far leave.
     */
    method RegisterNext(i: nat, ghost plan: seq<Registration>, ghost o: nat, ghost h: nat, ghost before: seq<Device?>) returns (acc: TuyaThermostatAccessory)
      requires Valid() && i < |configDevices| && |plan| == |configDevices|
      requires plan[i] == RegistrationOf(Uuids(accessories), configDevices[i])
      requires |registeredDevices| == o + i && |before| == |accessories|
      requires forall j :: 0 <= j < i ==> Registered(registeredDevices[o + j], configDevices[j], plan[j], accessories)
      requires forall j :: 0 <= j < i && plan[j].Create? ==> registeredDevices[o + j].accessory.device == registeredDevices[o + j].device
      requires forall m {:trigger ContextsPlanned(accessories, before, plan, registeredDevices[o..])[m]} :: 0 <= m < |accessories| ==>
        accessories[m].device == ContextsPlanned(accessories, before, plan, registeredDevices[o..])[m]
      requires forall j :: o <= j < |registeredDevices| ==> StartsFresh(registeredDevices[j])
      requires h <= |hubCalls|
      requires forall k :: 0 <= k < |accessories| && accessories[k].device != before[k] ==>
        UpdateAccessory(accessories[k], accessories[k].device) in hubCalls[h..]
      modifies this, set a | a in accessories
      ensures Valid() && old(Repr) <= Repr
      ensures accessories == old(accessories) && registeredDevices == old(registeredDevices) + [acc]
      ensures Registered(acc, configDevices[i], plan[i], accessories) && hubCalls == old(hubCalls) + [HubCallOf(acc, plan[i])]
      ensures forall j :: o <= j < |registeredDevices| ==> StartsFresh(registeredDevices[j])
      ensures forall k :: 0 <= k < |accessories| && accessories[k] != acc.accessory ==> accessories[k].device == old(accessories[k].device)
      ensures forall j :: 0 <= j <= i && plan[j].Create? ==> registeredDevices[o + j].accessory.device == registeredDevices[o + j].device
      ensures forall m {:trigger ContextsPlanned(accessories, before, plan, registeredDevices[o..])[m]} :: 0 <= m < |accessories| ==>
        accessories[m].device == ContextsPlanned(accessories, before, plan, registeredDevices[o..])[m]
      ensures forall k :: 0 <= k < |accessories| && accessories[k].device != before[k] ==>
        UpdateAccessory(accessories[k], accessories[k].device) in hubCalls[h..]
    {
      ghost var prev := Contexts(accessories);
      assert prev == ContextsPlanned(accessories, before, plan, registeredDevices[o..]);
      ghost var calls := hubCalls;
      label Before:
      acc := RegisterDevice(configDevices[i]);
      assert hubCalls[h..] == calls[h..] + [HubCallOf(acc, plan[i])];
      forall k | 0 <= k < |accessories| && accessories[k].device != before[k]
        ensures UpdateAccessory(accessories[k], accessories[k].device) in hubCalls[h..]
      {
        if accessories[k] == acc.accessory {
          assert plan[i].Reuse?;
        } else {
          assert accessories[k].device == old@Before(accessories[k].device);
        }
      }
      forall j | 0 <= j < i && plan[j].Create?
        ensures registeredDevices[o + j].accessory.device == registeredDevices[o + j].device
      {
        assert registeredDevices[o + j] == old@Before(registeredDevices[o + j]);
        assert registeredDevices[o + j].accessory !in accessories;
      }
      assert registeredDevices[o..] == old@Before(registeredDevices[o..]) + [acc];
      ghost var next := Contexts(accessories);
      forall m | 0 <= m < |accessories|
        ensures next[m] == if accessories[m] == acc.accessory then acc.device else prev[m]
      {
        if accessories[m] != acc.accessory {
          assert prev[m] == old@Before(accessories[m].device);
        }
      }
      ContextsPlannedNext(accessories, before, plan, old@Before(registeredDevices[o..]), acc, prev, next);
    }

    /**
     * One pass of the discovery loop: a new record for the configured device,
     * then the cached accessory with its UUID reused (and handed back as
     * updated) or a new accessory created (and registered).
     */
    method RegisterDevice(cfg: DeviceConfig) returns (acc: TuyaThermostatAccessory)
      requires Valid()
      modifies this, set a | a in accessories
      ensures Valid() && old(Repr) <= Repr && fresh(acc.Repr())
      ensures accessories == old(accessories) && registeredDevices == old(registeredDevices) + [acc]
      ensures var r := RegistrationOf(Uuids(accessories), cfg);
        && Registered(acc, cfg, r, accessories)
        && hubCalls == old(hubCalls) + [HubCallOf(acc, r)]
        && acc.accessory.device == acc.device
        && StartsFresh(acc)
        && (forall k :: 0 <= k < |accessories| && accessories[k] != acc.accessory ==> accessories[k].device == old(accessories[k].device))
    {
      var device := new Device(cfg);
      match IndexOf(Uuids(accessories), device.uuid) {
        case Some(k) =>
          var existing := accessories[k];
          existing.device := device;
          hubCalls := hubCalls + [UpdateAccessory(existing, device)];
          acc := new TuyaThermostatAccessory(existing);
        case None =>
          var created := new PlatformAccessory(device.name, device.uuid);
          created.device := device;
          acc := new TuyaThermostatAccessory(created);
          hubCalls := hubCalls + [RegisterAccessory(created, device)];
      }
      Track(acc);
    }

    /** Adds a new accessory to the registered ones */
    method Track(acc: TuyaThermostatAccessory)
      requires Valid() && acc.Valid() && acc.Repr() !! Repr && this !in acc.Repr()
      modifies this
      ensures Valid() && Repr == old(Repr) + acc.Repr()
      ensures registeredDevices == old(registeredDevices) + [acc]
      ensures accessories == old(accessories) && hubCalls == old(hubCalls)
    {
      registeredDevices := registeredDevices + [acc];
      Repr := Repr + acc.Repr();
    }

    /**
     * The command bridge with the missing value segment reported as malformed:
     * a reading goes to the first registered device with the id, whose
     * `setCurrentTemperature` is started and not awaited; every other request
     * changes nothing.
     */
    method HttpHandler(uri: string, net: Net) returns (reply: Reply)
      requires Valid()
      modifies Repr
      ensures Valid()
      ensures var d := Route(uri, DeviceIds(registeredDevices));
        && (d.Respond? ==> reply == d.reply && unchanged(Repr))
        && (d.Apply? ==>
              var acc := registeredDevices[d.index];
              var value := ToNumber(d.temp);
              var reachable := Reachable(old(acc.thermostat.link.connected), net);
              && reply == Updated(d.id, d.temp)
              && acc.thermostat.currentTemp == value
              && acc.thermostat.targetTemp == old(acc.thermostat.targetTemp)
              && acc.thermostat.state == old(acc.thermostat.state)
              && acc.thermostat.link.sent == old(acc.thermostat.link.sent)
                   + PowerCommands(old(acc.thermostat.link.connected), net, ShouldHeat(value, acc.thermostat.targetTemp))
              && acc.thermostat.link.connected == reachable
              && acc.thermostat.poll == (if !old(acc.thermostat.link.connected) && reachable then old(acc.thermostat.poll).Start() else old(acc.thermostat.poll))
              && acc.device.currentTemp == (if reachable && net.setOk then Some(value) else old(acc.device.currentTemp))
              && acc.device.targetTemp == old(acc.device.targetTemp) && acc.device.state == old(acc.device.state)
              && acc.device.heatingSince == old(acc.device.heatingSince)
              && (forall j :: 0 <= j < |registeredDevices| && j != d.index ==> unchanged(registeredDevices[j].Repr())))
    {
      var d := Route(uri, DeviceIds(registeredDevices));
      match d
      case Respond(r) =>
        reply := r;
      case Apply(k, id, temp) =>
        var acc := registeredDevices[k];
        assert acc.Repr() <= Repr;
        var _ := acc.SetCurrentTemperature(ToNumber(temp), net);
        reply := Updated(id, temp);
        forall j | 0 <= j < |registeredDevices| && j != k
          ensures unchanged(registeredDevices[j].Repr()) && registeredDevices[j].Valid()
        {
          assert registeredDevices[j].Repr() !! acc.Repr();
        }
    }
  }
}
