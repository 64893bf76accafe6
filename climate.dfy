/**
 * The current climate entity (custom_components/t_smart/climate.py): what it shows
 * for a device and which control command each of its setters issues. The entity
 * reads a device record with separate high, low and average temperatures, and
 * calls a public `async_control_set`; the record is therefore abstract here and a
 * command is a value, not a call into Protocol.
 */
module Climate {
  import opened Wrappers
  import Protocol

  /** The keys of the preset map. */
  datatype Preset = Manual | Eco | Smart | Timer | Away | Boost

  /** The preset map's keys in insertion order. */
  const Presets: seq<Preset> := [Manual, Eco, Smart, Timer, Away, Boost]

  /** The preset map: each preset's operating mode. */
  function PresetMode(p: Preset): (m: Protocol.Mode)
    ensures Protocol.ModeCode(m) <= 5
  {
    match p
    case Manual => Protocol.Manual
    case Eco => Protocol.Eco
    case Smart => Protocol.Smart
    case Timer => Protocol.Timer
    case Away => Protocol.Travel
    case Boost => Protocol.Boost
  }

  /**
   * The first key in `keys` whose mode is `mode`, or None: the generator search
   * `next((k for k, v in items if v == mode), None)`.
   */
  function FindPreset(keys: seq<Preset>, mode: Option<Protocol.Mode>): (r: Option<Preset>)
    ensures r.Some? ==> r.value in keys && mode == Some(PresetMode(r.value))
    ensures r.None? <==> forall i :: 0 <= i < |keys| ==> mode != Some(PresetMode(keys[i]))
  {
    if keys == [] then None
    else if mode == Some(PresetMode(keys[0])) then Some(keys[0])
    else FindPreset(keys[1..], mode)
  }

  /** `preset_mode`: the preset whose mode is the device's mode. */
  function PresetFor(mode: Option<Protocol.Mode>): (r: Option<Preset>)
    ensures r.Some? ==> mode == Some(PresetMode(r.value))
    ensures r.None? <==> forall k :: 0 <= k < |Presets| ==> mode != Some(PresetMode(Presets[k]))
  {
    FindPreset(Presets, mode)
  }

  /** The preset whose mode has code `k`, for the six user modes. */
  lemma PresetAt(k: nat)
    requires k < |Presets|
    ensures Protocol.ModeCode(PresetMode(Presets[k])) == k
  {
  }

  /** A mode that is some preset's mode is found; the six user modes are exactly those. */
  lemma PresetFound(m: Protocol.Mode)
    requires m != Protocol.Limited && m != Protocol.Critical
    ensures PresetFor(Some(m)).Some?
  {
    var k := Protocol.ModeCode(m);
    PresetAt(k);
    assert Some(m) == Some(PresetMode(Presets[k]));
  }

  /**
   * The preset map is one-to-one onto the six user modes: every preset is found
   * again from its own mode, and no preset exists for an unset mode or for the
   * device-only modes Limited and Critical.
   */
  lemma PresetRoundTrip(p: Preset, q: Preset, mode: Option<Protocol.Mode>)
    ensures PresetMode(p) == PresetMode(q) ==> p == q
    ensures PresetFor(Some(PresetMode(p))) == Some(p)
    ensures PresetFor(mode).None? <==>
      mode == None || mode == Some(Protocol.Limited) || mode == Some(Protocol.Critical)
  {
    PresetFound(PresetMode(p));
    if mode.Some? && mode.value != Protocol.Limited && mode.value != Protocol.Critical {
      PresetFound(mode.value);
    }
  }

  // ---- what the entity shows ----

  /** The device record the entity reads; None is Python's None. */
  datatype Device = Device(
    power: Option<bool>, relay: Option<bool>, mode: Option<Protocol.Mode>, setpoint: Option<real>,
    temperatureHigh: Option<real>, temperatureLow: Option<real>, temperatureAverage: Option<real>)

  /** Python truthiness of an optional flag. */
  predicate Truthy(b: Option<bool>)
  {
    b == Some(true)
  }

  /** Home Assistant's HVAC modes; the entity supports Off and Heat. */
  datatype HvacMode = Off | Heat | Cool | HeatCool | Auto | Dry | FanOnly

  /** Home Assistant's HVAC actions used here; Stopped is `HVACAction.OFF`. */
  datatype HvacAction = Idle | Heating | Stopped

  /** `hvac_mode` */
  function HvacModeOf(d: Device): (h: HvacMode)
    ensures h == Heat <==> Truthy(d.power)
    ensures h == Off <==> !Truthy(d.power)
  {
    if Truthy(d.power) then Heat else Off
  }

  /** `hvac_action`: off without power; with power, heating while the relay is on, idle otherwise. */
  function HvacActionOf(d: Device): (a: HvacAction)
    ensures a == Stopped <==> !Truthy(d.power)
    ensures a == Heating <==> Truthy(d.power) && Truthy(d.relay)
    ensures a == Idle <==> Truthy(d.power) && !Truthy(d.relay)
  {
    if Truthy(d.power) then (if Truthy(d.relay) then Heating else Idle) else Stopped
  }

  /** The configured temperature source; Average stands for any value other than high and low. */
  datatype TemperatureSource = High | Low | Average

  /** `current_temperature` */
  function CurrentTemperature(d: Device, source: TemperatureSource): (t: Option<real>)
    ensures source == High ==> t == d.temperatureHigh
    ensures source == Low ==> t == d.temperatureLow
    ensures source == Average ==> t == d.temperatureAverage
  {
    match source
    case High => d.temperatureHigh
    case Low => d.temperatureLow
    case Average => d.temperatureAverage
  }

  // ---- what the setters do ----

  /** A control command: power, mode and setpoint, as passed to the device. */
  datatype ControlCall = ControlCall(power: bool, mode: Protocol.Mode, setpoint: Option<real>)

  /** What a setter does. */
  datatype Outcome =
    | Ignored                               // no command and no refresh
    | KeyError                              // the preset-map lookup raises before any command
    | Sent(call: ControlCall, refresh: bool)

  /** `PRESET_MAP[key]`, with None for a key that is absent (including Python's None). */
  function Lookup(key: Option<Preset>): (m: Option<Protocol.Mode>)
    ensures m.None? <==> key.None?
    ensures key.Some? ==> PresetFor(m) == key
  {
    match key
    case None => None
    case Some(p) =>
      PresetRoundTrip(p, p, None);
      Some(PresetMode(p))
  }

  /**
   * `async_set_hvac_mode`: any mode but Off and Heat does nothing at all; Off and
   * Heat resend the device's current mode and setpoint with power on exactly for
   * Heat, then refresh; without a preset for the current mode the lookup raises.
   */
  function SetHvacMode(d: Device, requested: HvacMode): (r: Outcome)
    ensures requested != Off && requested != Heat ==> r == Ignored
    ensures (requested == Off || requested == Heat) && PresetFor(d.mode).None? ==> r == KeyError
    ensures (requested == Off || requested == Heat) && PresetFor(d.mode).Some? ==>
      r == Sent(ControlCall(requested == Heat, d.mode.value, d.setpoint), true)
  {
    if requested != Off && requested != Heat then Ignored
    else match Lookup(PresetFor(d.mode))
      case None => KeyError
      case Some(m) => Sent(ControlCall(requested == Heat, m, d.setpoint), true)
  }

  /** The value `async_set_temperature` leaves in `_attr_target_temperature`, and what it does. */
  datatype TemperatureSet = TemperatureSet(target: Option<real>, outcome: Outcome)

  /** Python truthiness of an optional number: neither None nor zero. */
  predicate Given(t: Option<real>)
  {
    t.Some? && t.value != 0.0
  }

  /**
   * `async_set_temperature` with the keyword arguments `temperature` and `hvac`
   * (None when absent); `target` is the attribute's previous value. The command
   * goes out only for a given, non-zero temperature, with the device's current
   * mode and with power on when the given (or else the current) HVAC mode is Heat;
   * the attribute is written even when the lookup then raises.
   */
  function SetTemperature(d: Device, target: Option<real>, temperature: Option<real>, hvac: Option<HvacMode>): (r: TemperatureSet)
    ensures r.outcome == Ignored <==> !Given(temperature)
    ensures r.outcome == KeyError <==> Given(temperature) && PresetFor(d.mode).None?
    ensures r.target == if Given(temperature) then temperature else target
    ensures r.outcome.Sent? ==>
      && r.outcome.call.setpoint == temperature
      && Some(r.outcome.call.mode) == d.mode
      && (r.outcome.call.power <==> (hvac == Some(Heat) || (hvac.None? && Truthy(d.power))))
      && r.outcome.refresh
  {
    var stored := if Given(temperature) then temperature else target;
    var mode := hvac.GetOr(HvacModeOf(d));
    if !Given(temperature) then TemperatureSet(stored, Ignored)
    else match Lookup(PresetFor(d.mode))
      case None => TemperatureSet(stored, KeyError)
      case Some(m) => TemperatureSet(stored, Sent(ControlCall(mode == Heat, m, temperature), true))
  }

  /**
   * `async_set_preset_mode`; None is a name that is not a key of the preset map.
   * Only the mode changes: power and setpoint are resent as the device has them.
   */
  function SetPresetMode(d: Device, preset: Option<Preset>): (r: Outcome)
    ensures preset.None? <==> r == KeyError
    ensures preset.Some? ==> r == Sent(ControlCall(Truthy(d.power), PresetMode(preset.value), d.setpoint), true)
  {
    match Lookup(preset)
    case None => KeyError
    case Some(m) => Sent(ControlCall(HvacModeOf(d) == Heat, m, d.setpoint), true)
  }
}
