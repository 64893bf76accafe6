/**
 * The older climate entity (top-level climate.py). It reads the client object's
 * fields directly, sends its commands through the client's control request, and
 * registers discovered devices by id in a set shared by the integration.
 */
module LegacyClimate {
  import opened Wrappers
  import opened Discovery
  import opened Protocol
  import opened LegacyProtocol
  import Climate

  /** `_climate_preset`: the preset whose mode is `mode`; none for an unset mode, Limited or Critical. */
  function ClimatePreset(mode: Option<Mode>): (r: Option<Climate.Preset>)
    ensures r.Some? ==> mode == Some(Climate.PresetMode(r.value))
    ensures r.None? <==> mode == None || mode == Some(Limited) || mode == Some(Critical)
  {
    Climate.PresetRoundTrip(Climate.Manual, Climate.Manual, mode);
    Climate.PresetFor(mode)
  }

  /** `hvac_mode`: Heat exactly when the device's power is on. */
  function HvacModeOf(s: State): (h: Climate.HvacMode)
    ensures h == Climate.Heat <==> s.power == Some(true)
    ensures h == Climate.Off <==> s.power != Some(true)
  {
    if s.power == Some(true) then Climate.Heat else Climate.Off
  }

  /**
   * `async_set_hvac_mode`: no check on the requested mode and no refresh; the
   * current mode is resent, and the setpoint sent is the MEASURED temperature.
   */
  function SetHvacMode(s: State, requested: Climate.HvacMode): (r: Climate.Outcome)
    ensures ClimatePreset(s.mode).None? <==> r == Climate.KeyError
    ensures ClimatePreset(s.mode).Some? ==>
      r == Climate.Sent(Climate.ControlCall(requested == Climate.Heat, s.mode.value, s.temperature), false)
  {
    match Climate.Lookup(ClimatePreset(s.mode))
    case None => Climate.KeyError
    case Some(m) => Climate.Sent(Climate.ControlCall(requested == Climate.Heat, m, s.temperature), false)
  }

  /** `async_set_preset_mode`: power kept, the measured temperature again sent as the setpoint. */
  function SetPresetMode(s: State, preset: Option<Climate.Preset>): (r: Climate.Outcome)
    ensures preset.None? <==> r == Climate.KeyError
    ensures preset.Some? ==>
      r == Climate.Sent(Climate.ControlCall(s.power == Some(true), Climate.PresetMode(preset.value), s.temperature), false)
  {
    match Climate.Lookup(preset)
    case None => Climate.KeyError
    case Some(m) => Climate.Sent(Climate.ControlCall(HvacModeOf(s) == Climate.Heat, m, s.temperature), false)
  }

  /**
   * Each command of the older entity reaches the client's control request with a
   * mode that passes its check; it is sent exactly when a temperature has been
   * measured and fits the setpoint field, and fails on the None setpoint before
   * any poll has measured one.
   */
  lemma LegacyCommandsReachClient(s: State, requested: Climate.HvacMode, preset: Option<Climate.Preset>)
    ensures var r := SetHvacMode(s, requested);
      r.Sent? ==>
        var req := ControlRequest(r.call.power, ModeCode(r.call.mode), r.call.setpoint);
        && (req.Success? <==> s.temperature.Some? && 0 <= SetpointRaw(s.temperature.value) < 0x1_0000)
        && (s.temperature.None? ==> req == Failure(SetpointMissing))
    ensures var r := SetPresetMode(s, preset);
      r.Sent? ==>
        var req := ControlRequest(r.call.power, ModeCode(r.call.mode), r.call.setpoint);
        && (req.Success? <==> s.temperature.Some? && 0 <= SetpointRaw(s.temperature.value) < 0x1_0000)
        && (s.temperature.None? ==> req == Failure(SetpointMissing))
  {
  }

  // ---- the shared registry of discovered ids ----

  /** The discovered devices whose id is not in `known`, in discovery order. */
  function NewDevices(ds: seq<TSmart>, known: set<string>): (r: seq<TSmart>)
    ensures forall i :: 0 <= i < |r| ==> r[i] in ds && r[i].deviceId !in known
    ensures forall i :: 0 <= i < |ds| && ds[i].deviceId !in known ==> ds[i] in r
    ensures |r| <= |ds|
  {
    if ds == [] then []
    else (if ds[0].deviceId in known then [] else [ds[0]]) + NewDevices(ds[1..], known)
  }

  /** Filtering keeps discovery order: filtering a concatenation concatenates the filtered parts. */
  lemma {:induction false} NewDevicesAppend(a: seq<TSmart>, b: seq<TSmart>, known: set<string>)
    ensures NewDevices(a + b, known) == NewDevices(a, known) + NewDevices(b, known)
    decreases |a|
  {
    if a == [] {
      assert a + b == b;
    } else {
      assert (a + b)[0] == a[0] && (a + b)[1..] == a[1..] + b;
      NewDevicesAppend(a[1..], b, known);
    }
  }

  /** Two devices announcing the same id that is not yet known both pass the filter, since it runs before the set grows. */
  lemma SharedNewIdBothKept(d1: TSmart, d2: TSmart, known: set<string>)
    requires d1.deviceId == d2.deviceId && d1.deviceId !in known
    ensures NewDevices([d1, d2], known) == [d1, d2]
  {
    assert [d1, d2][1..] == [d2];
    assert [d2][1..] == [];
  }

  function IdsOf(ds: seq<TSmart>): set<string>
  {
    set i | 0 <= i < |ds| :: ds[i].deviceId
  }

  lemma IdsOfAppend(ds: seq<TSmart>, d: TSmart)
    ensures IdsOf(ds + [d]) == IdsOf(ds) + {d.deviceId}
  {
    var grown := ds + [d];
    assert grown[|ds|] == d;
    assert forall i :: 0 <= i < |ds| ==> grown[i] == ds[i];
  }

  /** The integration's shared data: the set of device ids already given an entity. */
  class Registry {
    var deviceIds: set<string>

    constructor ()
      ensures deviceIds == {}
    {
      deviceIds := {};
    }

    /**
     * `async_discover_devices`: discover, keep the devices whose id was not known
     * when the call started, then record their ids one by one.
     */
    method DiscoverDevices(rounds: seq<seq<Datagram>>) returns (entities: seq<TSmart>)
      requires |rounds| == DiscoveryRounds
      modifies this
      ensures exists found: seq<TSmart> ::
        && Identities(found) == Collect(SplitOnLiteral0x00, false, rounds[0], rounds[1]).devices
        && entities == NewDevices(found, old(deviceIds))
      ensures deviceIds == old(deviceIds) + IdsOf(entities)
    {
      var found, broadcasts := LegacyProtocol.Discover(rounds);
      var unseen := NewDevices(found, deviceIds);
      assert Identities(found) == Collect(SplitOnLiteral0x00, false, rounds[0], rounds[1]).devices;
      entities := [];
      for i := 0 to |unseen|
        invariant entities == unseen[..i]
        invariant deviceIds == old(deviceIds) + IdsOf(entities)
      {
        IdsOfAppend(entities, unseen[i]);
        assert unseen[..i + 1] == entities + [unseen[i]];
        deviceIds := deviceIds + {unseen[i].deviceId};
        entities := entities + [unseen[i]];
      }
      assert entities == unseen;
    }
  }
}
