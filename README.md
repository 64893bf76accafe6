# T-Smart water heater client, modelled in Dafny

This project models the client side of the T-Smart immersion-heater protocol used by the
`t_smart` Home Assistant integration. The client talks to heaters over UDP port 1337 with
small fixed-size binary frames. Every frame ends in a checksum byte: the XOR of all earlier
bytes, XORed with 0x55. The client has four parts:

- **Discovery.** The client broadcasts `01 00 00 54` twice. After each broadcast it reads
  43-byte announcements until a receive times out. It keeps one device per sender address;
  the first accepted announcement from an address wins. Each device gets:
  - an id string: the 32-bit id in `"%4X"` form, upper-case and space padded;
  - a name: cut out of a 32-byte field.
- **Request loop.** The checksummed request is sent at most twice. The loop sends again
  after a timeout, a wrong-size reply, an error reply or a reply to another opcode. The
  result is the last datagram received.
- **Status poll.** The client sends `F1 00 00 ..` and decodes a 30-byte status into fields:
  - temperature: (high + low) / 20;
  - setpoint: raw / 10;
  - power, mode and relay.
- **Control request.** An 8-byte frame `F2 00 00 power setpoint(u16, tenths) mode ..`. The
  client checks the mode (0..5) before it sends anything.

There are two copies of the client.
- The current one (`custom_components/t_smart/tsmart.py`) can stop discovery at the first
  device. It cuts the name at the first NUL.
- The older one (`tsmart.py`) always runs both rounds. It cuts the name at the first
  occurrence of the four characters `0x00`, so a name's NUL padding is kept.
- Their request loop, status poll and control request are the same, line for line. They are
  modelled once, as `Protocol.TSmart`.

On top of the client sit two climate entities. The model covers what they show (HVAC mode
and action, preset, current temperature) and which command each setter issues.

The network is a script:
- discovery: the datagrams each round receives before its timeout;
- requests: what each wait produces (`Timeout` or `Reply(bytes)`).

Exceptions become explicit outcomes:
- `UnpackFailed`, `UnknownMode` for a status poll;
- `ControlError` for a control request;
- `KeyError` for a climate setter.

Behaviour kept exactly as the code has it:
- The sub-command checks (`data[1] != data[1]`) never fire.
- A reply whose checksum fails is accepted by the request loop.
- A rejected reply that is followed by a timeout is still returned.
- An unknown mode code raises after temperature, setpoint and power were written.
- Device ids are space padded: id 0x01A2 becomes `" 1A2"`, not `"01A2"`.
- Discovery takes no exclude list; the older entity filters known ids itself.

Modules:
- `Frame`: checksum, little-endian fields, reply validation.
- `Layouts`: struct layouts.
- `DeviceId`: `"%4X"`.
- `Discovery`: the discovery specification and its lemmas.
- `Session`: the request loop's specification.
- `Protocol`: the client class.
- `LegacyProtocol`: the older discovery.
- `Climate` and `LegacyClimate`: the two entities.

## Model

| member | source | states |
|---|---|---|
| Frame.WithChecksum | custom_components/t_smart/tsmart.py:126-130 | checksum preparation keeps the length and every byte but the last, and afterwards the checksum rule holds |
| Frame.PrepareChecksum | custom_components/t_smart/tsmart.py:126-130 | the in-place loop over the request buffer leaves exactly `WithChecksum` of the old contents (identical at tsmart.py:105-109) |
| Frame.XorOf | custom_components/t_smart/tsmart.py:86-88 | the accumulator loop computes the XOR of all bytes |
| Frame.WithChecksumKeepsValidFrame | custom_components/t_smart/tsmart.py:126-130 | preparing a frame whose checksum already holds changes nothing |
| Frame.ChecksumDetectsSingleByteChange | custom_components/t_smart/tsmart.py:86-91 | changing any single byte of a valid frame, trailer included, makes the check fail |
| Frame.DiscoveryRequestChecksummed | custom_components/t_smart/tsmart.py:51 | the hard-coded discovery request `01 00 00 54` already satisfies the checksum rule |
| Frame.Classify | custom_components/t_smart/tsmart.py:145-170 | each verdict is pinned by its own iff: wrong size iff the size differs; an error reply iff the size is right and byte 0 is 0; an unexpected type iff byte 0 is non-zero and differs from the opcode; a checksum failure iff only the checksum is wrong; valid iff all pass; bytes 1 and 2 are never checked |
| Layouts.UnpackDiscovery | custom_components/t_smart/tsmart.py:96-105 | reading the `=BBBHL32sBB` fields of a 43-byte announcement (little-endian, no padding); the 32-byte name field is kept whole; it is inverse to packing by `UnpackPackDiscovery` and `PackUnpackDiscovery` |
| Layouts.UnpackPackDiscovery | custom_components/t_smart/tsmart.py:45 | unpacking a packed `=BBBHL32sBB` announcement gives back every field |
| Layouts.PackUnpackDiscovery | custom_components/t_smart/tsmart.py:45 | every 43-byte string is the packing of its own fields |
| Layouts.UnpackPackStatus | custom_components/t_smart/tsmart.py:187 | unpacking a packed `=BBBBHBHBBH16sB` status gives back every field |
| Layouts.PackUnpackStatus | custom_components/t_smart/tsmart.py:187 | every 30-byte string is the packing of its own fields |
| Layouts.UnpackStatus | custom_components/t_smart/tsmart.py:187-206 | reading the `=BBBBHBHBBH16sB` fields of a 30-byte status; the 16 error bytes are kept whole; it is inverse to packing by `UnpackPackStatus` and `PackUnpackStatus` |
| Layouts.PackControl | custom_components/t_smart/tsmart.py:222-224 | packing `=BBBBHBB` gives an 8-byte frame; `ControlRoundTrip` shows it reads back as 0xF2, power, setpoint and mode |
| Layouts.ControlRoundTrip | custom_components/t_smart/tsmart.py:222-224 | a checksummed control frame reads back as opcode 0xF2, power 0/1, the setpoint and the mode, and its checksum holds |
| DeviceId.HexCanonical | custom_components/t_smart/tsmart.py:107 | the hexadecimal numeral is non-empty, upper-case, has no leading zero and denotes the id |
| DeviceId.HexLength | custom_components/t_smart/tsmart.py:107 | an id below 16^k has at most k digits |
| DeviceId.FormatId | custom_components/t_smart/tsmart.py:107 | `"%4X"` of the id; its width, padding and parse-back are proved by `FormatIdProperties` and its values by `FormatIdExamples` |
| DeviceId.FormatIdProperties | custom_components/t_smart/tsmart.py:107 | the id string is max(4, digits) long, at most 8 for a 32-bit id, is spaces then the canonical numeral, and parses back to the id |
| DeviceId.FormatIdExamples | custom_components/t_smart/tsmart.py:107 | 0x01A2 gives " 1A2", 0xBEEF gives "BEEF", 0x12345 gives "12345" |
| Discovery.ClassifyDiscovery | custom_components/t_smart/tsmart.py:60-91 | an announcement is accepted iff its length is not 4, is 43, byte 0 is non-zero and equals 0x01, and the checksum holds |
| Discovery.CheckResponse | custom_components/t_smart/tsmart.py:60-91 | the receive loop's guards and XOR loop accept exactly the datagrams `ClassifyDiscovery` accepts (identical at tsmart.py:61-82) |
| Discovery.NameBeforeNul | custom_components/t_smart/tsmart.py:106 | the name is the longest NUL-free prefix of the field, ending where the field has a NUL |
| Discovery.NameBeforeLiteral | tsmart.py:88 | the name is the prefix of the field before the first occurrence of the characters "0x00", or the whole field |
| Discovery.PaddedNameCut | custom_components/t_smart/tsmart.py:106 | a name padded with NULs to 32 bytes comes back without its padding |
| Discovery.PaddedNameKept | tsmart.py:88 | with the older rule, a NUL-padded name with no 'x' comes back with all its padding |
| Discovery.FirstFrom | custom_components/t_smart/tsmart.py:95 | the index of the first accepted announcement from an address: it is accepted and from that address, and none before it is |
| Discovery.FirstResponse | custom_components/t_smart/tsmart.py:112-113 | the index of the first accepted announcement from anyone, and none before it is accepted |
| Discovery.DecodeName | custom_components/t_smart/tsmart.py:106 | the name kept is a prefix of the 32-byte field, and under the current rule it holds no NUL (the older rule is tsmart.py:88) |
| Discovery.Announce | custom_components/t_smart/tsmart.py:96-111 | the device built from an announcement has the sender's address, a name that is a prefix of the name field, and an id that is the announced id's hex numeral once its padding spaces are stripped |
| Discovery.Scan | custom_components/t_smart/tsmart.py:57-116 | one receive window over its datagrams; characterised by `ScanKeeps`, `ScanFresh`, `ScanAdds`, `ScanOrder`, `ScanComplete`, `ScanStopsAtFirst` and `ScanAppend` |
| Discovery.ScanKeeps | custom_components/t_smart/tsmart.py:95-111 | a receive window keeps the known devices first and unchanged, and keeps addresses distinct |
| Discovery.ScanFresh | custom_components/t_smart/tsmart.py:95-111 | every device a receive window adds has an address not known before, which sent an accepted announcement in that window |
| Discovery.ScanAdds | custom_components/t_smart/tsmart.py:95-111 | each device a window adds has a new address and is built from the first accepted announcement from that address |
| Discovery.ScanOrder | custom_components/t_smart/tsmart.py:95-111 | devices are added in the order of their first accepted announcements |
| Discovery.ScanComplete | custom_components/t_smart/tsmart.py:95-111 | without early stop, every address with an accepted announcement is known afterwards |
| Discovery.ScanStopsAtFirst | custom_components/t_smart/tsmart.py:112-113 | with early stop a window yields only the device of its first accepted announcement |
| Discovery.ScanAppend | custom_components/t_smart/tsmart.py:50-119 | without early stop, reading two windows one after the other equals reading their concatenation |
| Discovery.FirstResponseAppend | custom_components/t_smart/tsmart.py:118-119 | the first accepted announcement of two rounds is in the first round if that round has one |
| Discovery.Rounds | custom_components/t_smart/tsmart.py:50-119 | the round loop, with its early exit after a round that found a device when stopping on the first; characterised through `RoundsOfTwo` and `CollectIsOneScan` |
| Discovery.Collect | custom_components/t_smart/tsmart.py:47-123 | one discovery call over two rounds; characterised by `CollectIsOneScan`, `DiscoveryFirstResponseWins`, `DiscoveryComplete` and `DiscoveryStopOnFirst` |
| Discovery.CollectIsOneScan | custom_components/t_smart/tsmart.py:50-119 | the two rounds act as one window over all datagrams; two broadcasts go out unless early stop found a device in round one |
| Discovery.StoppedScanOfTwo | custom_components/t_smart/tsmart.py:112-119 | with early stop, the device kept from the first round that found one is the device a single stopping scan over both rounds keeps, and round one finds one iff it holds an accepted announcement |
| Discovery.DiscoveryFirstResponseWins | custom_components/t_smart/tsmart.py:47-123 | one device per address, each built from the first accepted announcement from its address, in first-acceptance order, after one or two broadcasts |
| Discovery.DiscoveryComplete | custom_components/t_smart/tsmart.py:50-119 | without early stop both broadcasts go out and every address with an accepted announcement is returned |
| Discovery.DiscoveryStopOnFirst | custom_components/t_smart/tsmart.py:112-119 | with early stop the result is the device of the first accepted announcement overall, or none; one broadcast iff round one had one |
| Discovery.CraftedAnnouncement | custom_components/t_smart/tsmart.py:95-111 | an announcement of id 0x01A2 named "Heater1" is accepted, gives id " 1A2" and name "Heater1"; the older rule keeps the NUL padding |
| Session.Exchange | custom_components/t_smart/tsmart.py:140-182 | the attempt loop of a request; characterised by `ExchangeSends`, `ExchangeReturnsLatest`, `ExchangeNone` and `RetryRule` |
| Session.ExchangeSends | custom_components/t_smart/tsmart.py:140-175 | the request goes out between once and once per wait; an early stop happens only at a reply that is not retried, and every earlier wait timed out or was retried |
| Session.ExchangeReturnsLatest | custom_components/t_smart/tsmart.py:140-182 | the result is the latest datagram received among the waits made, accepted or not (identical at tsmart.py:120-157) |
| Session.ExchangeNone | custom_components/t_smart/tsmart.py:178-182 | nothing is returned iff every wait timed out |
| Session.RetryRule | custom_components/t_smart/tsmart.py:148-175 | a wait ends the exchange iff it produced a reply of the expected size whose byte 0 is neither 0 nor another opcode; the checksum plays no part, and a timeout never ends it |
| Session.ChecksumFailureAccepted | custom_components/t_smart/tsmart.py:166-175 | a reply with a bad checksum ends the exchange after one send and is returned |
| Session.RetriedReplyThenTimeout | custom_components/t_smart/tsmart.py:146-160 | a rejected reply followed by a timeout costs two sends and is still returned |
| Protocol.ModeFromCode | custom_components/t_smart/tsmart.py:14-22 | the mode decoded from a code has that code; there is none exactly for codes other than 0..5, 0x21, 0x22 |
| Protocol.ModeCodeRoundTrip | custom_components/t_smart/tsmart.py:14-22 | each mode's code decodes to that mode; codes are distinct |
| Protocol.TemperatureOf | custom_components/t_smart/tsmart.py:208 | the temperature is the mean of the two sensor readings in degrees |
| Protocol.SetpointOf | custom_components/t_smart/tsmart.py:209 | the setpoint in degrees is a tenth of the raw value |
| Protocol.ApplyStatus | custom_components/t_smart/tsmart.py:190-212 | nothing is written without a response or for a wrong-size one; an unknown mode writes power, temperature and setpoint and leaves mode and relay; a full update sets all five |
| Protocol.StatusDecodes | custom_components/t_smart/tsmart.py:192-212 | a status packed by the device is applied field by field; the error bytes and the checksum byte play no part |
| Protocol.UnknownModePartialWrite | custom_components/t_smart/tsmart.py:208-212 | with an unknown mode code the state is the old one with power, temperature and setpoint replaced |
| Protocol.ErrorReplyApplied | custom_components/t_smart/tsmart.py:153-212 | a 30-byte error reply followed by a timeout costs two sends and is applied as a full status update |
| Protocol.Trunc | custom_components/t_smart/tsmart.py:223 | `int()` truncates toward zero |
| Protocol.SetpointRaw | custom_components/t_smart/tsmart.py:223 | the setpoint in tenths, truncated toward zero: for a non-negative setpoint the largest whole number of tenths not above it, for a negative one the smallest not below it |
| Protocol.ControlRequest | custom_components/t_smart/tsmart.py:216-224 | a frame is built iff a setpoint is given, the mode is in 0..5 and the setpoint in tenths fits 16 bits; each error is pinned by an iff: a missing setpoint (the log line's TypeError) exactly for None, the mode error exactly for a mode outside 0..5, the 16-bit overflow exactly for a valid mode with a setpoint in tenths outside 0..0xFFFF |
| Protocol.ControlRequestDecodes | custom_components/t_smart/tsmart.py:222-224 | an accepted control request reads back as power, setpoint in tenths and mode, with a valid checksum |
| Protocol.SetpointExamples | custom_components/t_smart/tsmart.py:219-224 | `int(setpoint * 10)` gives 550 for 55.0 (bytes 26 02), 0 for -0.05 (truncation toward zero, so the request is sent) and 65536 for 6553.6 (the 16-bit field overflows); mode 6 is refused |
| Protocol.TSmart.constructor | custom_components/t_smart/tsmart.py:26-33 | a new device has its id, address and name, and no status yet |
| Protocol.TSmart.Discover | custom_components/t_smart/tsmart.py:35-123 | the nested round and receive loops build new, unpolled device objects whose identities and broadcast count are exactly `Collect` with the NUL rule |
| Protocol.TSmart.ReceiveWindow | custom_components/t_smart/tsmart.py:56-113 | the receive loop of one round makes a new, unpolled device object per accepted announcement from a new address, stopping at the first one with early stop; the identities it leaves are exactly `Scan` of the round (the older loop at tsmart.py:58-94 is the same without early stop) |
| Protocol.TSmart.Found | custom_components/t_smart/tsmart.py:96-111 | the object made for an accepted announcement is new and unpolled, and its identity is exactly `Announce` of the datagram: the `"%4X"` id, the sender's address and the decoded name (the older construction is tsmart.py:87-91) |
| Protocol.TSmart.Request | custom_components/t_smart/tsmart.py:125-182 | the frame sent is the request with its checksum prepared in place (`WithChecksum`), and the attempt loop returns exactly the `Exchange` of that frame over the scripted waits |
| Protocol.TSmart.GetStatus | custom_components/t_smart/tsmart.py:184-214 | the frame sent is the checksummed status request; the new field values and the outcome are `ApplyStatus` of the old values and the exchange's result (identical at tsmart.py:159-177) |
| Protocol.TSmart.ControlSet | custom_components/t_smart/tsmart.py:216-227 | a refused request sends nothing and reports why; otherwise the frame sent is the checksummed control request, which reads back as opcode 0xF2, power as 0/1, the setpoint in tenths and the mode, and it goes through the request loop expecting 4 bytes (identical at tsmart.py:179-188) |
| LegacyProtocol.Discover | tsmart.py:34-101 | both rounds always run; the devices' identities are exactly `Collect` with the "0x00" rule and no early stop |
| LegacyProtocol.LegacyDiscoveryGuarantees | tsmart.py:48-94 | two broadcasts, distinct addresses, and an address is returned iff it sent an accepted announcement |
| Climate.PresetMode | custom_components/t_smart/climate.py:45-52 | every preset maps to one of the user modes 0..5, so the client's mode check admits it |
| Climate.FindPreset | custom_components/t_smart/climate.py:157 | the search returns a key whose mode is the device mode, or none when no key has it |
| Climate.PresetFor | custom_components/t_smart/climate.py:155-157 | `preset_mode`: a found preset has the device's mode, and none is found iff no key of the preset map has that mode |
| Climate.PresetRoundTrip | custom_components/t_smart/climate.py:45-52 | the preset map is one-to-one; each preset is found from its mode; no preset exactly for an unset mode, Limited or Critical |
| Climate.Lookup | custom_components/t_smart/climate.py:45-52 | `PRESET_MAP[key]` fails exactly for a missing key, and the mode found maps back to the same key under `preset_mode` |
| Climate.HvacModeOf | custom_components/t_smart/climate.py:87 | Heat iff power is on, Off otherwise |
| Climate.HvacActionOf | custom_components/t_smart/climate.py:90-96 | off without power; heating with power and relay; idle with power and no relay |
| Climate.CurrentTemperature | custom_components/t_smart/climate.py:121-129 | the reading comes from the high sensor, the low sensor or the average, as configured |
| Climate.SetHvacMode | custom_components/t_smart/climate.py:98-118 | modes other than Off and Heat do nothing; Off/Heat resend the current mode and setpoint with power = Heat and refresh; without a preset the lookup raises |
| Climate.SetTemperature | custom_components/t_smart/climate.py:136-152 | a command goes out only for a non-zero temperature; power follows the given or current HVAC mode; the mode is the current one; the attribute is written even when the lookup raises |
| Climate.SetPresetMode | custom_components/t_smart/climate.py:159-166 | an unknown preset raises; otherwise only the mode changes, and power and setpoint are resent |
| LegacyClimate.ClimatePreset | climate.py:91-92 | the preset found has the device's mode; there is none exactly for an unset mode, Limited or Critical |
| LegacyClimate.HvacModeOf | climate.py:74-75 | Heat iff power is on |
| LegacyClimate.SetHvacMode | climate.py:77-78 | no check on the requested mode and no refresh; the current mode is resent, and the MEASURED temperature is sent as the setpoint |
| LegacyClimate.SetPresetMode | climate.py:80-81 | power kept, the chosen preset's mode, the measured temperature as the setpoint |
| LegacyClimate.LegacyCommandsReachClient | climate.py:77-85 | such a command passes the client's mode check; it is sent iff a temperature was measured and fits, and fails on the None setpoint otherwise |
| LegacyClimate.NewDevices | climate.py:128-132 | the kept devices are exactly the discovered ones whose id is not yet known |
| LegacyClimate.NewDevicesAppend | climate.py:128-132 | filtering keeps discovery order |
| LegacyClimate.SharedNewIdBothKept | climate.py:128-137 | two devices sharing a not-yet-known id both get entities, because the filter runs before the set grows |
| LegacyClimate.Registry.DiscoverDevices | climate.py:123-139 | the entities are the newly discovered devices whose id was unknown at the start, and the id set grows by exactly their ids |

## Left out

- Sockets, binding, broadcast, `asyncio_dgram` streams and the 2-second `wait_for`: replaced by scripted datagram lists and waits. Closing the socket is not modelled.
- The broadcast and send counts (`broadcasts`, `sends`) are observations the model adds; the client does not return them.
- Logging. The one log line that raises, `"%0.2f"` of a None setpoint in the control request, is modelled as `SetpointMissing`.
- Floating point: temperatures and setpoints are exact reals, and `int(setpoint * 10)` truncates the exact product. IEEE rounding of the product is not modelled.
- UTF-8 decoding of the name: the name is a byte prefix. For valid UTF-8, splitting the decoded text on NUL or on "0x00" cuts at the same place. A decoding error is not modelled.
- The `=` byte order is taken as little-endian.
- `struct` range errors other than the 16-bit setpoint. Power is always 0/1 and a checked mode always fits a byte.
- The older copy's `_async_request`, `_async_get_status` and `_async_control_set` are not modelled separately. They are identical to the current ones (tsmart.py:104-188).
- Climate.CurrentTemperature, Climate.SetHvacMode, Climate.SetTemperature, Climate.SetPresetMode: these read an abstract device record and return commands as values. They are not linked to `Protocol.TSmart`, because the current entity uses members the shown client lacks: `async_control_set`, `temperature_high`, `temperature_low`, `temperature_average`.
- Climate.SetPresetMode and Climate.SetHvacMode: a preset name outside the map is represented as None, like Python's None.
- The current entity's `_attr_target_temperature` is shadowed by its `target_temperature` property. The model returns the written value but nothing reads it.
- `extra_state_attributes`, `device_info`, `async_update` and the setup functions: Home Assistant display and glue. `async_update` is the status poll, which is modelled.
- A relay read before any poll is an AttributeError in the client. The model represents the missing attribute as None. The same holds after a first poll that stops at an unknown mode code: power is already written but relay is not, so `Climate.HvacActionOf` gives Idle where the entity's `hvac_action` (climate.py:90-96) would raise AttributeError.
- Not part of this model:
  - `config_flow.py` (both copies), `coordinator.py`, `__init__.py`, `entity.py`, `sensor.py` and `binary_sensor.py`: Home Assistant glue;
  - `custom_components/t_smart/discovery.py`: its id filter repeats climate.py:127-137;
  - `const.py`: constants only, used as reference values.
- Concurrency and contention for local port 1337.
- LegacyClimate.Registry.DiscoverDevices: the result is stated through the device list that discovery returned, as an existential, not through a closed formula.
