/**
 * The fixed frame layouts of the protocol, as the `struct` formats of the client
 * describe them (packed, no padding, little-endian).
 */
module Layouts {
  import opened Frame

  /** `=BBBHL32sBB` */
  const DiscoveryResponseSize: nat := 43
  /** `=BBBBHBHBBH16sB` */
  const StatusResponseSize: nat := 30
  /** `=BBBBHBB` */
  const ControlRequestSize: nat := 8
  /** `=BBBB` */
  const ControlAckSize: nat := 4

  // ---- discovery response ----

  datatype DiscoveryFields = DiscoveryFields(
    cmd: bv8, sub: bv8, sub2: bv8, deviceType: U16, deviceId: U32,
    name: seq<bv8>, timezone: bv8, checksum: bv8)

  /** Unpacking a 43-byte discovery response; every field has its fixed offset. */
  function UnpackDiscovery(d: seq<bv8>): (f: DiscoveryFields)
    requires |d| == DiscoveryResponseSize
    ensures |f.name| == 32
  {
    DiscoveryFields(d[0], d[1], d[2], U16At(d, 3), U32At(d, 5), d[9..41], d[41], d[42])
  }

  /** The device side: packing the fields of a discovery response. */
  function PackDiscovery(f: DiscoveryFields): (d: seq<bv8>)
    requires |f.name| == 32
    ensures |d| == DiscoveryResponseSize
  {
    [f.cmd, f.sub, f.sub2, Lo(f.deviceType), Hi(f.deviceType),
     Lo(Low16(f.deviceId)), Hi(Low16(f.deviceId)), Lo(High16(f.deviceId)), Hi(High16(f.deviceId))]
    + f.name + [f.timezone, f.checksum]
  }

  /** Unpacking recovers every packed field. */
  lemma UnpackPackDiscovery(f: DiscoveryFields)
    requires |f.name| == 32
    ensures UnpackDiscovery(PackDiscovery(f)) == f
  {
    var d := PackDiscovery(f);
    WordBytes(f.deviceType, 0, 0);
    WordBytes(Low16(f.deviceId), 0, 0);
    WordBytes(High16(f.deviceId), 0, 0);
    LongHalves(f.deviceId, 0, 0);
    assert d[9..41] == f.name;
  }

  /** Every 43-byte string is the packing of its own fields: the layout covers each byte once. */
  lemma PackUnpackDiscovery(d: seq<bv8>)
    requires |d| == DiscoveryResponseSize
    ensures PackDiscovery(UnpackDiscovery(d)) == d
  {
    var f := UnpackDiscovery(d);
    WordBytes(0, d[3], d[4]);
    WordBytes(0, d[5], d[6]);
    WordBytes(0, d[7], d[8]);
    LongHalves(0, U16At(d, 5), U16At(d, 7));
    assert PackDiscovery(f)[..9] == d[..9];
    assert d == d[..9] + d[9..41] + d[41..];
  }

  // ---- status response ----

  datatype StatusFields = StatusFields(
    cmd: bv8, sub: bv8, sub2: bv8, power: bv8, setpoint: U16, mode: bv8,
    tempHigh: U16, relay: bv8, smartState: bv8, tempLow: U16, error: seq<bv8>, checksum: bv8)

  /** Unpacking a 30-byte status response. */
  function UnpackStatus(d: seq<bv8>): (f: StatusFields)
    requires |d| == StatusResponseSize
    ensures |f.error| == 16
  {
    StatusFields(d[0], d[1], d[2], d[3], U16At(d, 4), d[6], U16At(d, 7), d[9], d[10],
                 U16At(d, 11), d[13..29], d[29])
  }

  /** The device side: packing the fields of a status response. */
  function PackStatus(f: StatusFields): (d: seq<bv8>)
    requires |f.error| == 16
    ensures |d| == StatusResponseSize
  {
    [f.cmd, f.sub, f.sub2, f.power, Lo(f.setpoint), Hi(f.setpoint), f.mode, Lo(f.tempHigh), Hi(f.tempHigh),
     f.relay, f.smartState, Lo(f.tempLow), Hi(f.tempLow)]
    + f.error + [f.checksum]
  }

  lemma UnpackPackStatus(f: StatusFields)
    requires |f.error| == 16
    ensures UnpackStatus(PackStatus(f)) == f
  {
    var d := PackStatus(f);
    WordBytes(f.setpoint, 0, 0);
    WordBytes(f.tempHigh, 0, 0);
    WordBytes(f.tempLow, 0, 0);
    assert d[13..29] == f.error;
  }

  lemma PackUnpackStatus(d: seq<bv8>)
    requires |d| == StatusResponseSize
    ensures PackStatus(UnpackStatus(d)) == d
  {
    var f := UnpackStatus(d);
    WordBytes(0, d[4], d[5]);
    WordBytes(0, d[7], d[8]);
    WordBytes(0, d[11], d[12]);
    assert PackStatus(f)[..13] == d[..13];
    assert d == d[..13] + d[13..29] + d[29..];
  }

  // ---- control request ----

  /** The fields of a control request other than its trailing checksum byte. */
  datatype ControlFields = ControlFields(cmd: bv8, sub: bv8, sub2: bv8, power: bv8, setpoint: U16, mode: bv8)

  /**
   * The control request before checksum preparation: opcode 0xF2, two zero sub
   * bytes, power as 0 or 1, the setpoint in tenths, the mode, and a zero
   * placeholder where the checksum goes.
   */
  function PackControl(power: bool, setpointRaw: U16, mode: bv8): (d: seq<bv8>)
    ensures |d| == ControlRequestSize
  {
    [0xF2, 0x00, 0x00, if power then 0x01 else 0x00, Lo(setpointRaw), Hi(setpointRaw), mode, 0x00]
  }

  /** The device side: reading a control request. */
  function UnpackControl(d: seq<bv8>): ControlFields
    requires |d| == ControlRequestSize
  {
    ControlFields(d[0], d[1], d[2], d[3], U16At(d, 4), d[6])
  }

  /**
   * Once checksummed, a packed control request still reads back as the power,
   * setpoint and mode it was built from, and its checksum holds.
   */
  lemma ControlRoundTrip(power: bool, setpointRaw: U16, mode: bv8)
    ensures var sent := WithChecksum(PackControl(power, setpointRaw, mode));
      && ChecksumHolds(sent)
      && UnpackControl(sent) == ControlFields(0xF2, 0x00, 0x00, if power then 0x01 else 0x00, setpointRaw, mode)
  {
    var d := PackControl(power, setpointRaw, mode);
    var sent := WithChecksum(d);
    assert sent[..7] == d[..7];
    WordBytes(setpointRaw, 0, 0);
  }
}
