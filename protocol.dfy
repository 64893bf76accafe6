/**
 * The T-Smart client object: a device found by discovery, whose status fields are
 * overwritten by each status poll, and which sends control requests.
 */
module Protocol {
  import opened Wrappers
  import opened Frame
  import opened Layouts
  import opened DeviceId
  import opened Discovery
  import opened Session

  // ---- operating modes ----

  /** The heater's operating modes (`TSmartMode`). */
  datatype Mode = Manual | Eco | Smart | Timer | Travel | Boost | Limited | Critical

  function ModeCode(m: Mode): nat
  {
    match m
    case Manual => 0x00
    case Eco => 0x01
    case Smart => 0x02
    case Timer => 0x03
    case Travel => 0x04
    case Boost => 0x05
    case Limited => 0x21
    case Critical => 0x22
  }

  /** `TSmartMode(c)`; None where the enum constructor raises ValueError. */
  function ModeFromCode(c: int): (r: Option<Mode>)
    ensures r.Some? ==> ModeCode(r.value) == c
    ensures r.None? <==> !(0 <= c <= 5 || c == 0x21 || c == 0x22)
  {
    if c == 0x00 then Some(Manual)
    else if c == 0x01 then Some(Eco)
    else if c == 0x02 then Some(Smart)
    else if c == 0x03 then Some(Timer)
    else if c == 0x04 then Some(Travel)
    else if c == 0x05 then Some(Boost)
    else if c == 0x21 then Some(Limited)
    else if c == 0x22 then Some(Critical)
    else None
  }

  /** Every mode's code decodes to that mode, so distinct modes have distinct codes. */
  lemma ModeCodeRoundTrip(m: Mode, n: Mode)
    ensures ModeFromCode(ModeCode(m)) == Some(m)
    ensures ModeCode(m) == ModeCode(n) ==> m == n
  {
  }

  // ---- the status poll ----

  /** The fields a status poll writes; None is Python's None (or, for relay, not yet set). */
  datatype State = State(
    power: Option<bool>, temperature: Option<real>, mode: Option<Mode>,
    setpoint: Option<real>, relay: Option<bool>)

  /** A freshly discovered device: nothing known yet. */
  const Unset := State(None, None, None, None, None)

  /** `(t_high + t_low) / 20`: the mean of the two sensor readings, which are in tenths of a degree. */
  function TemperatureOf(f: StatusFields): (t: real)
    ensures t == ((f.tempHigh as int as real / 10.0) + (f.tempLow as int as real / 10.0)) / 2.0
  {
    (f.tempHigh as int + f.tempLow as int) as real / 20.0
  }

  /** `setpoint / 10`: the setpoint is sent in tenths of a degree. */
  function SetpointOf(f: StatusFields): (s: real)
    ensures 0.0 <= s && s * 10.0 == f.setpoint as int as real
  {
    f.setpoint as int as real / 10.0
  }

  /** How a status poll ends. */
  datatype StatusOutcome =
    | NoResponse          // nothing received: the poll returns, nothing written
    | UnpackFailed        // the datagram held is not 30 bytes: struct.error, nothing written
    | UnknownMode(code: bv8)  // TSmartMode raises, after temperature, setpoint and power were written
    | Updated

  datatype StatusUpdate = StatusUpdate(state: State, outcome: StatusOutcome)

  /** The effect of a status poll that received `response`, on a device in state `before`. */
  function ApplyStatus(before: State, response: Option<seq<bv8>>): (u: StatusUpdate)
    ensures u.outcome == NoResponse <==> response.None?
    ensures u.outcome == UnpackFailed <==> response.Some? && |response.value| != StatusResponseSize
    ensures u.outcome == NoResponse || u.outcome == UnpackFailed ==> u.state == before
    ensures u.outcome.UnknownMode? ==>
      && ModeFromCode(u.outcome.code as int).None?
      && u.state.mode == before.mode && u.state.relay == before.relay
      && u.state.power.Some? && u.state.temperature.Some? && u.state.setpoint.Some?
    ensures u.outcome == Updated ==>
      u.state.power.Some? && u.state.temperature.Some? && u.state.mode.Some?
      && u.state.setpoint.Some? && u.state.relay.Some?
  {
    match response
    case None => StatusUpdate(before, NoResponse)
    case Some(data) =>
      if |data| != StatusResponseSize then StatusUpdate(before, UnpackFailed)
      else
        var f := UnpackStatus(data);
        var written := before.(temperature := Some(TemperatureOf(f)), setpoint := Some(SetpointOf(f)),
                               power := Some(f.power != 0));
        match ModeFromCode(f.mode as int)
        case None => StatusUpdate(written, UnknownMode(f.mode))
        case Some(m) => StatusUpdate(written.(mode := Some(m), relay := Some(f.relay != 0)), Updated)
  }

  /**
   * A status response packed by the device decodes to its fields: power and relay
   * are "non-zero", temperature and setpoint are scaled from tenths, and the error
   * bytes and the checksum byte play no part.
   */
  lemma StatusDecodes(before: State, f: StatusFields, m: Mode)
    requires |f.error| == 16 && f.mode as int == ModeCode(m)
    ensures ApplyStatus(before, Some(PackStatus(f))) ==
      StatusUpdate(State(Some(f.power != 0), Some(((f.tempHigh as int + f.tempLow as int) as real) / 20.0), Some(m),
                         Some(f.setpoint as int as real / 10.0), Some(f.relay != 0)), Updated)
  {
    UnpackPackStatus(f);
    ModeCodeRoundTrip(m, m);
  }

  /** An unknown mode code: temperature, setpoint and power are written, mode and relay keep their old values. */
  lemma UnknownModePartialWrite(before: State, f: StatusFields)
    requires |f.error| == 16 && ModeFromCode(f.mode as int).None?
    ensures ApplyStatus(before, Some(PackStatus(f))) ==
      StatusUpdate(before.(power := Some(f.power != 0), temperature := Some(((f.tempHigh as int + f.tempLow as int) as real) / 20.0),
                           setpoint := Some(f.setpoint as int as real / 10.0)), UnknownMode(f.mode))
  {
    UnpackPackStatus(f);
  }

  /**
   * An error reply (first byte 0) is retried, but when the second wait times out it
   * is still the datagram returned, and the poll applies its fields.
   */
  lemma ErrorReplyApplied(before: State, f: StatusFields, m: Mode)
    requires |f.error| == 16 && f.cmd == 0 && f.mode as int == ModeCode(m)
    ensures var frame := WithChecksum(StatusRequest);
      var ex := Exchange(frame, StatusResponseSize, [Reply(PackStatus(f)), Timeout], None);
      ex.sends == 2 && ApplyStatus(before, ex.response).outcome == Updated
  {
    var frame := WithChecksum(StatusRequest);
    assert frame[0] == 0xF1;
    RetriedReplyThenTimeout(frame, StatusResponseSize, PackStatus(f));
    StatusDecodes(before, f, m);
  }

  // ---- the control request ----

  /** Python's `int(x)`: truncation toward zero. */
  function Trunc(x: real): (n: int)
    ensures 0.0 <= x ==> n as real <= x < n as real + 1.0
    ensures x < 0.0 ==> n as real - 1.0 < x <= n as real
  {
    if x >= 0.0 then x.Floor else -((-x).Floor)
  }

  /** `int(setpoint * 10)`: the setpoint in tenths of a degree. */
  function SetpointRaw(setpoint: real): (raw: int)
    ensures 0.0 <= setpoint ==> raw as real <= setpoint * 10.0 < raw as real + 1.0
    ensures setpoint < 0.0 ==> raw as real - 1.0 < setpoint * 10.0 <= raw as real
  {
    Trunc(setpoint * 10.0)
  }

  /** Why a control request is not sent; each is an exception in the client. */
  datatype ControlError =
    | SetpointMissing     // the log line's "%0.2f" conversion of None raises TypeError
    | InvalidMode         // the explicit ValueError for a mode outside 0..5
    | SetpointOutOfRange  // struct.error: int(setpoint * 10) does not fit 16 bits

  /** The control request to send, before checksum preparation, or why none is sent. */
  function ControlRequest(power: bool, mode: int, setpoint: Option<real>): (r: Result<seq<bv8>, ControlError>)
    ensures r.Success? <==> setpoint.Some? && 0 <= mode <= 5 && 0 <= SetpointRaw(setpoint.value) < 0x1_0000
    ensures r == Failure(SetpointMissing) <==> setpoint.None?
    ensures r == Failure(InvalidMode) <==> setpoint.Some? && !(0 <= mode <= 5)
    ensures r == Failure(SetpointOutOfRange) <==>
      setpoint.Some? && 0 <= mode <= 5 && !(0 <= SetpointRaw(setpoint.value) < 0x1_0000)
    ensures r.Success? ==> |r.value| == ControlRequestSize
  {
    if setpoint.None? then Failure(SetpointMissing)
    else if mode < 0 || mode > 5 then Failure(InvalidMode)
    else
      var raw := SetpointRaw(setpoint.value);
      if !(0 <= raw < 0x1_0000) then Failure(SetpointOutOfRange)
      else Success(PackControl(power, raw as U16, mode as bv8))
  }

  /**
   * A control request, once checksummed, carries the opcode 0xF2, power as 0 or 1,
   * the setpoint in tenths and the mode, and its checksum holds.
   */
  lemma ControlRequestDecodes(power: bool, mode: int, setpoint: real)
    requires 0 <= mode <= 5 && 0 <= SetpointRaw(setpoint) < 0x1_0000
    ensures var r := ControlRequest(power, mode, Some(setpoint));
      && r.Success?
      && ChecksumHolds(WithChecksum(r.value))
      && UnpackControl(WithChecksum(r.value)) ==
         ControlFields(0xF2, 0x00, 0x00, if power then 0x01 else 0x00, SetpointRaw(setpoint) as U16, mode as bv8)
  {
    ControlRoundTrip(power, SetpointRaw(setpoint) as U16, mode as bv8);
  }

  /** Setpoints at the edges: 55 degrees is 550 tenths (bytes 0x26 0x02); tiny negatives truncate to 0; 6553.6 overflows. */
  lemma SetpointExamples()
    ensures SetpointRaw(55.0) == 550 && Lo(550) == 0x26 && Hi(550) == 0x02
    ensures ControlRequest(true, 5, Some(55.0)) == Success([0xF2, 0x00, 0x00, 0x01, 0x26, 0x02, 0x05, 0x00])
    ensures SetpointRaw(-0.05) == 0 && ControlRequest(false, 0, Some(-0.05)).Success?
    ensures SetpointRaw(6553.6) == 65536 && ControlRequest(false, 0, Some(6553.6)) == Failure(SetpointOutOfRange)
    ensures ControlRequest(true, 6, Some(55.0)) == Failure(InvalidMode)
  {
    assert (55.0 * 10.0).Floor == 550;
    assert (-(-0.05 * 10.0)).Floor == 0;
    assert (6553.6 * 10.0).Floor == 65536;
    var raw := SetpointRaw(55.0);
    assert raw as U16 == 0x0226;
    assert Lo(0x0226) == 0x26 && Hi(0x0226) == 0x02;
  }

  // ---- the device object ----

  class TSmart {
    const deviceId: string
    const ip: Ip
    const name: seq<bv8>
    var power: Option<bool>
    var temperature: Option<real>
    var mode: Option<Mode>
    var setpoint: Option<real>
    /** None until a poll writes it (the constructor does not create the attribute). */
    var relay: Option<bool>

    constructor (deviceId: string, ip: Ip, name: seq<bv8>)
      ensures this.deviceId == deviceId && this.ip == ip && this.name == name
      ensures Snapshot() == Unset
    {
      this.deviceId := deviceId;
      this.ip := ip;
      this.name := name;
      power := None;
      temperature := None;
      mode := None;
      setpoint := None;
      relay := None;
    }

    function Snapshot(): State
      reads this
    {
      State(power, temperature, mode, setpoint, relay)
    }

    /** What discovery learnt about this device. */
    function Identity(): Discovered
    {
      Discovered(deviceId, ip, name)
    }

    /**
     * Discovery (`async_discover`): two rounds over the scripted datagrams, a new
     * device object per new sender address, ending early with stopOnFirst.
     */
    static method Discover(stopOnFirst: bool, rounds: seq<seq<Datagram>>) returns (devices: seq<TSmart>, broadcasts: nat)
      requires |rounds| == DiscoveryRounds
      ensures Run(Identities(devices), broadcasts) == Collect(CutAtNul, stopOnFirst, rounds[0], rounds[1])
      ensures forall d :: d in devices ==> fresh(d) && d.Snapshot() == Unset
    {
      assert rounds == [rounds[0], rounds[1]];
      devices := [];
      broadcasts := 0;
      var r := 0;
      while r < |rounds|
        invariant 0 <= r <= |rounds| && broadcasts == r
        invariant Rounds(CutAtNul, stopOnFirst, [], rounds) ==
                  Later(Rounds(CutAtNul, stopOnFirst, Identities(devices), rounds[r..]), r)
        invariant forall d :: d in devices ==> fresh(d) && d.Snapshot() == Unset
      {
        assert rounds[r..][0] == rounds[r] && rounds[r..][1..] == rounds[r + 1..];
        broadcasts := broadcasts + 1;
        devices := ReceiveWindow(CutAtNul, devices, rounds[r], stopOnFirst);
        if stopOnFirst && |devices| > 0 {
          break;
        }
        r := r + 1;
      }
    }

    /**
     * One receive window of discovery: datagrams are read until the timeout, and a
     * new device object is made for each accepted response from a new sender; with
     * stopOnFirst the window ends at the first one.
     */
    static method ReceiveWindow(rule: NameRule, devices: seq<TSmart>, window: seq<Datagram>, stopOnFirst: bool)
      returns (grown: seq<TSmart>)
      ensures Identities(grown) == Scan(rule, Identities(devices), window, stopOnFirst)
      ensures forall d :: d in grown ==> d in devices || (fresh(d) && d.Snapshot() == Unset)
    {
      grown := devices;
      var j := 0;
      while j < |window|
        invariant 0 <= j <= |window|
        invariant Scan(rule, Identities(devices), window, stopOnFirst) == Scan(rule, Identities(grown), window[j..], stopOnFirst)
        invariant forall d :: d in grown ==> d in devices || (fresh(d) && d.Snapshot() == Unset)
      {
        ScanStep(rule, Identities(grown), window, j, stopOnFirst);
        var dg := window[j];
        var ok := CheckResponse(dg.payload);
        if ok && dg.sender !in IpsOf(Identities(grown)) {
          var device := Found(rule, dg);
          IdentitiesAppend(grown, device);
          grown := grown + [device];
          if stopOnFirst {
            return;
          }
        }
        j := j + 1;
      }
    }

    /** The device object made for an accepted announcement: id, address and name as it announces them. */
    static method Found(rule: NameRule, dg: Datagram) returns (device: TSmart)
      requires |dg.payload| == DiscoveryResponseSize
      ensures fresh(device) && device.Snapshot() == Unset
      ensures device.Identity() == Announce(rule, dg)
    {
      var f := UnpackDiscovery(dg.payload);
      device := new TSmart(FormatId(f.deviceId as nat), dg.sender, DecodeName(rule, f.name));
    }

    /**
     * `_async_request`: checksum preparation in place, then up to two sends, each
     * followed by one wait; the datagram last received is returned.
     */
    method Request(request: seq<bv8>, responseSize: nat, attempts: seq<Attempt>)
      returns (response: Option<seq<bv8>>, sends: nat, sent: seq<bv8>)
      requires |request| > 0 && responseSize >= 3 && |attempts| == MaxSends
      ensures sent == WithChecksum(request)
      ensures ExchangeResult(response, sends) == Exchange(sent, responseSize, attempts, None)
    {
      var buffer := new bv8[|request|](i requires 0 <= i < |request| => request[i]);
      assert buffer[..] == request;
      PrepareChecksum(buffer);
      var frame := buffer[..];
      sent := frame;
      response := None;
      sends := 0;
      var i := 0;
      while i < MaxSends
        invariant 0 <= i <= MaxSends && sends == i
        invariant Exchange(frame, responseSize, attempts, None) ==
                  Sent(Exchange(frame, responseSize, attempts[i..], response), i)
      {
        assert attempts[i..][0] == attempts[i] && attempts[i..][1..] == attempts[i + 1..];
        sends := sends + 1;
        match attempts[i] {
          case Timeout =>
          case Reply(data) =>
            response := Some(data);
            var retry;
            if |data| != responseSize {
              retry := true;
            } else if data[0] == 0 {
              retry := true;
            } else if data[0] != frame[0] || data[1] != data[1] || data[2] != data[2] {
              retry := true;
            } else {
              // a failed checksum is only logged: the reply is accepted either way
              retry := false;
            }
            if !retry {
              return;
            }
        }
        i := i + 1;
      }
    }

    /**
     * `_async_get_status`: poll, then overwrite the fields one by one; an unknown
     * mode code raises between the power and the mode writes.
     */
    method GetStatus(attempts: seq<Attempt>) returns (outcome: StatusOutcome, sent: seq<bv8>)
      requires |attempts| == MaxSends
      modifies this
      ensures sent == WithChecksum(StatusRequest)
      ensures StatusUpdate(Snapshot(), outcome) ==
        ApplyStatus(old(Snapshot()), Exchange(WithChecksum(StatusRequest), StatusResponseSize, attempts, None).response)
    {
      var response, sends;
      response, sends, sent := Request(StatusRequest, StatusResponseSize, attempts);
      if response.None? {
        return NoResponse, sent;
      }
      var data := response.value;
      if |data| != StatusResponseSize {
        return UnpackFailed, sent;
      }
      var f := UnpackStatus(data);
      temperature := Some(TemperatureOf(f));
      setpoint := Some(SetpointOf(f));
      power := Some(f.power != 0);
      var m := ModeFromCode(f.mode as int);
      if m.None? {
        return UnknownMode(f.mode), sent;
      }
      mode := m;
      relay := Some(f.relay != 0);
      return Updated, sent;
    }

    /**
     * `_async_control_set`: check, pack and send a control request; the reply is
     * awaited but not used, and nothing is returned. `sent` is the frame that went
     * out, after checksum preparation, or None when the request was refused.
     */
    method ControlSet(power: bool, mode: int, setpoint: Option<real>, attempts: seq<Attempt>)
      returns (error: Option<ControlError>, sends: nat, sent: Option<seq<bv8>>)
      requires |attempts| == MaxSends
      ensures ControlRequest(power, mode, setpoint).Failure? ==>
        error == Some(ControlRequest(power, mode, setpoint).error) && sends == 0 && sent == None
      ensures ControlRequest(power, mode, setpoint).Success? ==>
        && error == None
        && sent == Some(WithChecksum(ControlRequest(power, mode, setpoint).value))
        && sends == Exchange(sent.value, ControlAckSize, attempts, None).sends
      ensures sent.Some? ==>
        && |sent.value| == ControlRequestSize
        && ChecksumHolds(sent.value)
        && UnpackControl(sent.value) ==
           ControlFields(0xF2, 0x00, 0x00, if power then 0x01 else 0x00, SetpointRaw(setpoint.value) as U16, mode as bv8)
    {
      match ControlRequest(power, mode, setpoint) {
        case Failure(e) =>
          return Some(e), 0, None;
        case Success(request) =>
          ControlRequestDecodes(power, mode, setpoint.value);
          var response, frame;
          response, sends, frame := Request(request, ControlAckSize, attempts);
          sent := Some(frame);
          error := None;
      }
    }
  }

  /** What discovery learnt about each device, in order. */
  function Identities(ds: seq<TSmart>): (r: seq<Discovered>)
    ensures |r| == |ds| && forall i :: 0 <= i < |ds| ==> r[i] == ds[i].Identity()
  {
    seq(|ds|, i requires 0 <= i < |ds| => ds[i].Identity())
  }

  lemma IdentitiesAppend(ds: seq<TSmart>, d: TSmart)
    ensures Identities(ds + [d]) == Identities(ds) + [d.Identity()]
  {
  }

  function Later(run: Run, rounds: nat): Run
  {
    Run(run.devices, run.broadcasts + rounds)
  }

  function Sent(r: ExchangeResult, earlier: nat): ExchangeResult
  {
    ExchangeResult(r.response, r.sends + earlier)
  }
}
