# EG4 Lifepower BMS driver: a Dafny model of its protocol layer

This project models the protocol layer of the `EG4_Lifepower` battery driver of
dbus-serialbattery. It covers how the driver talks to an EG4 Lifepower battery
management system over a serial line:

- **Command frames** (`commands.dfy`). The driver builds three six-byte commands for a
  device address: general status, hardware version and firmware version. The second-to-last
  byte of the general and firmware commands comes from a fixed table on the address.
- **Terminator check** (`frames.dfy`). A reply is accepted only when its last byte is 13
  (carriage return). A wrong terminator calls the connection-error hook. An empty reply
  makes `data[-1]` raise.
- **Group decoder** (`groups.dfy`). After four prefix bytes, a status reply holds ten groups
  `<id> <count> <value:2>*count`. The values are big-endian 16-bit.
- **Telemetry mapper** (`telemetry.dfy`). It turns the groups into cell voltages, current,
  state of charge, capacity, six temperatures, five alarms, the charge-cycle count and the
  battery voltage. Values are kept as scaled integers: millivolts, centiamps and hundredths.
- **Version sanitiser** (`text.dfy`). It keeps only `[a-zA-Z0-9-._ ]` of a decoded version
  reply.
- **The driver object** (`driver.dfy`). Class `Driver.EG4Lifepower` holds the fields the
  driver writes, and its methods follow `get_settings`, `read_status_data`, `refresh_data`,
  `test_connection`, `read_serial_data_eg4` and `get_balancing` statement by statement.
  - The serial layer is a parameter: a function from a command to the bytes read back, or
    `None` when the read fails.
  - Where the Python code raises (an empty reply, a count byte past the buffer, an
    odd-length payload, a group value the mapper indexes but the reply lacks), the
    methods return `Raised`. They keep the field assignments made before that point, as
    the Python object does.

The decoder is not strict about length. A stricter decoder would reject any reply shorter
than the lengths its groups declare, but the code does not. It fails only when:

- the count byte lies past the buffer (`status_data[i + 1]` raises), or
- the payload slice, cut short by the end of the buffer, has an odd length
  (`unpack_from` raises).

A last group cut short to an even number of bytes decodes to fewer values without error.
`Groups.ShortLastGroupAccepted` proves this, and `Groups.OnlyLastGroupMayBeShort` proves
that no other group can be short.

The documentation of `get_command_general_part` lists frames for addresses 0x00 to 0x0F.
Its rows for 0x00 and 0x0F carry the address bytes 0x01 and 0x0D, while the code puts the
real address there. `Commands.GeneralCommandMatchesDocumentation` proves that the built
frames agree with every other byte of the table.

## Model

| member | source | states |
|---|---|---|
| `Commands.Trailer` | dbus-serialbattery/bms/eg4_lifepower.py:82-91 | Every address byte has a trailer, one of 0x00, 0xFC, 0xF8, 0xF0 or 0xFE, and the trailer is 0x00 exactly for address 0x00 |
| `Commands.TrailerDefault` | dbus-serialbattery/bms/eg4_lifepower.py:90-91 | Every odd address and every address above 0x0E gets the default trailer 0xFE |
| `Commands.Frame` | dbus-serialbattery/bms/eg4_lifepower.py:20-22 | A command frame is six bytes, starts with 0x7E and ends with 0x0D |
| `Commands.GeneralCommand` | dbus-serialbattery/bms/eg4_lifepower.py:20 | The general command of an address reads back as that address, function code 0x01 and the address's trailer byte |
| `Commands.HardwareVersionCommand` | dbus-serialbattery/bms/eg4_lifepower.py:21 | The hardware version command of an address reads back as that address, function code 0x42 and the fixed byte 0xFC |
| `Commands.FirmwareVersionCommand` | dbus-serialbattery/bms/eg4_lifepower.py:22 | The firmware version command of an address reads back as that address, function code 0x33 and the address's trailer byte |
| `Commands.ParseFrameInverts` | dbus-serialbattery/bms/eg4_lifepower.py:20-22 | A frame reads back as the address, function code and trailer it was built from |
| `Commands.CommandsOfAddress` | dbus-serialbattery/bms/eg4_lifepower.py:20-22 | The general, hardware-version and firmware-version commands of an address carry that address with function codes 0x01, 0x42 and 0x33 and fifth bytes trailer, 0xFC and trailer; no two of them are equal |
| `Commands.FirmwareIsGeneralWithOtherFunction` | dbus-serialbattery/bms/eg4_lifepower.py:20-22 | The firmware command is the general command with its function byte replaced by 0x33 |
| `Commands.GeneralCommandMatchesDocumentation` | dbus-serialbattery/bms/eg4_lifepower.py:65-91 | For addresses 0x00 to 0x0F the built general command equals the documented frame apart from the address byte, and equals it in full except for 0x00 and 0x0F, whose documented address bytes differ from the built frame |
| `Driver.EG4Lifepower.constructor` | dbus-serialbattery/bms/eg4_lifepower.py:16-29 | A new driver holds the three commands of its address, balancing 0, and valid fields |
| `Frames.CheckTerminator` | dbus-serialbattery/bms/eg4_lifepower.py:226-235 | A read is accepted, with its bytes unchanged, exactly when the transport succeeded with a non-empty reply ending in 13; a non-empty reply ending otherwise is a terminator error; an empty reply is the raising case; a failed transport is a plain failure |
| `Frames.TerminatorDecides` | dbus-serialbattery/bms/eg4_lifepower.py:231-235 | Only the last byte decides acceptance, whatever precedes it |
| `Driver.EG4Lifepower.ReadSerialDataEG4` | dbus-serialbattery/bms/eg4_lifepower.py:214-235 | The reply to a command is the terminator check of what the transport returns, and the connection-error hook is called once exactly on a terminator error |
| `Groups.WordsIn` | dbus-serialbattery/bms/eg4_lifepower.py:155 | A payload of even length yields half as many values |
| `Groups.WordsInAt` | dbus-serialbattery/bms/eg4_lifepower.py:155 | Value k of a payload is the big-endian reading of its k-th byte pair |
| `Groups.WordsInUnwords` | dbus-serialbattery/bms/eg4_lifepower.py:155 | Values sent as big-endian byte pairs anywhere in a buffer read back unchanged |
| `Groups.DecodeAt` | dbus-serialbattery/bms/eg4_lifepower.py:145-156 | A successful decoding of n groups yields exactly n groups |
| `Groups.GroupEnd` | dbus-serialbattery/bms/eg4_lifepower.py:152-153 | The declared end of a group lies two header bytes plus two bytes per counted value after its start |
| `Groups.SliceEnd` | dbus-serialbattery/bms/eg4_lifepower.py:153-154 | The payload slice of a group whose count byte exists stops between the first payload byte and the end of the buffer |
| `Groups.Readable` | dbus-serialbattery/bms/eg4_lifepower.py:152-155 | A group is read without raising exactly when its count byte lies in the buffer and its clamped payload slice has even length |
| `Groups.GroupValues` | dbus-serialbattery/bms/eg4_lifepower.py:154-155 | The values of a readable group are the big-endian byte pairs of its clamped payload slice |
| `Groups.DecodeAtAdvance` | dbus-serialbattery/bms/eg4_lifepower.py:152-156 | One loop turn keeps the invariant: the groups read so far, then a readable group, then the decoding from its declared end, are the decoding of the whole reply |
| `Groups.Decode` | dbus-serialbattery/bms/eg4_lifepower.py:145-156 | A decoded reply has exactly ten groups, read from offset 4 on |
| `Groups.DecodeStatus` | dbus-serialbattery/bms/eg4_lifepower.py:145-156 | The cursor loop over ten groups from offset 4 computes the decoding of the reply, including its failure cases |
| `Groups.DecodeGroups` | dbus-serialbattery/bms/eg4_lifepower.py:145-156 | The cursor loop over any number of groups from any offset computes their decoding, and fails exactly where a group cannot be read |
| `Groups.ReadGroup` | dbus-serialbattery/bms/eg4_lifepower.py:152-156 | One loop turn succeeds exactly when the group is readable, and then yields the values of its payload slice and its declared end as the next cursor |
| `Groups.HoldsDecodes` | dbus-serialbattery/bms/eg4_lifepower.py:145-156 | A reply that holds every declared header and payload always decodes |
| `Groups.DecodeShift` | dbus-serialbattery/bms/eg4_lifepower.py:145-156 | Group k of a decoded reply is the first group decoded at the cursor the groups before it leave |
| `Groups.CursorAdvances` | dbus-serialbattery/bms/eg4_lifepower.py:152-156 | After each group the cursor moves to the end of that group's declared payload, inside the buffer |
| `Groups.GroupLayout` | dbus-serialbattery/bms/eg4_lifepower.py:150-156 | In a reply that holds its groups, group k's value count is the byte after its id, its values are the pairs of bytes cursor+2 to cursor+2+2n, and the next cursor is that end |
| `Groups.OnlyLastGroupMayBeShort` | dbus-serialbattery/bms/eg4_lifepower.py:152-155 | When decoding succeeds, every group but the last lies complete in the buffer |
| `Groups.LastGroupDecodes` | dbus-serialbattery/bms/eg4_lifepower.py:152-155 | With the earlier groups complete, decoding succeeds exactly when the last count byte exists and the truncated payload has even length |
| `Groups.LastGroupValues` | dbus-serialbattery/bms/eg4_lifepower.py:152-155 | With the earlier groups complete and decoding successful, the last group is the pairs of its payload up to its declared end or the buffer's end, whichever comes first |
| `Groups.LastGroupHeld` | dbus-serialbattery/bms/eg4_lifepower.py:152-154 | With the earlier groups complete, all are complete exactly when the last declared payload fits in the buffer |
| `Groups.DecodeAtSucceeds` | dbus-serialbattery/bms/eg4_lifepower.py:145-156 | Decoding succeeds if and only if all groups but the last are complete and the last one's count byte exists with an even-length payload, possibly cut short |
| `Groups.ShortLastGroupAccepted` | dbus-serialbattery/bms/eg4_lifepower.py:152-155 | A last group cut short to an even length decodes without error into fewer values than its count byte declares, though the reply does not hold all declared bytes |
| `Groups.EncodedGroupAt` | dbus-serialbattery/bms/eg4_lifepower.py:150-155 | An encoded group anywhere in a buffer has its count after its id and its values as the pairs of its declared payload |
| `Groups.EncodedCarried` | dbus-serialbattery/bms/eg4_lifepower.py:145-156 | Encoded groups after any prefix and before any bytes are carried at the cursor positions the decoder visits |
| `Groups.CarriedDecodes` | dbus-serialbattery/bms/eg4_lifepower.py:145-156 | Carried groups are complete in the buffer and decode to their values whatever their ids |
| `Groups.DecodeEncode` | dbus-serialbattery/bms/eg4_lifepower.py:145-156 | Round trip: ten encoded groups with any ids after a four-byte prefix decode to their values, whatever follows |
| `Telemetry.CellMillivolts` | dbus-serialbattery/bms/eg4_lifepower.py:172 | A cell voltage is at most 16383 mV and agrees with the raw value modulo 2^14 |
| `Telemetry.CellIgnoresTopBits` | dbus-serialbattery/bms/eg4_lifepower.py:163-172 | The two top bits of the raw value never change the cell voltage |
| `Telemetry.CurrentCentiamps` | dbus-serialbattery/bms/eg4_lifepower.py:175 | The current is positive exactly when the raw value is below 30000 and negative exactly when above, within [30000 - 65535, 30000] |
| `Telemetry.Temperature` | dbus-serialbattery/bms/eg4_lifepower.py:185-190 | A temperature lies in [-50, 205] and, plus 50, agrees with the raw value's low byte |
| `Telemetry.Alarm` | dbus-serialbattery/bms/eg4_lifepower.py:194-202 | An alarm level is 0 or 2, and 2 exactly when its bit is set |
| `Telemetry.Alarms` | dbus-serialbattery/bms/eg4_lifepower.py:194-202 | Every alarm read from the flags word is 0 or 2 |
| `Telemetry.AlarmWordDigits` | dbus-serialbattery/bms/eg4_lifepower.py:194-202 | A flags word carrying given alarms has each alarm's digit in bits 3 to 7 |
| `Telemetry.ReadHighChargeCurrent` | dbus-serialbattery/bms/eg4_lifepower.py:194 | Bit 3 of a flags word carrying given alarms is set exactly when the high-charge-current alarm is raised, whatever the other bits hold |
| `Telemetry.ReadHighVoltage` | dbus-serialbattery/bms/eg4_lifepower.py:196 | Bit 4 is set exactly when the high-voltage alarm is raised, whatever the other bits hold |
| `Telemetry.ReadLowVoltage` | dbus-serialbattery/bms/eg4_lifepower.py:198 | Bit 5 is set exactly when the low-voltage alarm is raised, whatever the other bits hold |
| `Telemetry.ReadHighChargeTemperature` | dbus-serialbattery/bms/eg4_lifepower.py:200 | Bit 6 is set exactly when the high-charge-temperature alarm is raised, whatever the other bits hold |
| `Telemetry.ReadLowChargeTemperature` | dbus-serialbattery/bms/eg4_lifepower.py:202 | Bit 7 is set exactly when the low-charge-temperature alarm is raised, whatever the other bits hold |
| `Telemetry.AlarmsRoundTrip` | dbus-serialbattery/bms/eg4_lifepower.py:194-202 | Bits 3 to 7 are read back as high charge current, high voltage, low voltage, high and low charge temperature, whatever the three low bits and the high byte hold |
| `Telemetry.AlarmsOfBits` | dbus-serialbattery/bms/eg4_lifepower.py:194-202 | Every valid set of alarms is read back from its own bits |
| `Telemetry.AlarmsExample` | dbus-serialbattery/bms/eg4_lifepower.py:194-202 | Flags 0b01010000 report high voltage and high charge temperature only |
| `Telemetry.CellVoltages` | dbus-serialbattery/bms/eg4_lifepower.py:159-172 | One cell per value of group 0, each the masked voltage of its value |
| `Telemetry.Temperatures` | dbus-serialbattery/bms/eg4_lifepower.py:185-190 | Six temperatures, each from the value of group 4 at its position |
| `Telemetry.Map` | dbus-serialbattery/bms/eg4_lifepower.py:159-208 | The telemetry of readable groups is within the ranges of every field, has one cell per value of group 0, and reports charging exactly when the current's raw value is below 30000 |
| `Telemetry.MapRaw` | dbus-serialbattery/bms/eg4_lifepower.py:159-208 | Every reportable telemetry is mapped back from the groups a device sends for it |
| `Telemetry.MapIgnoresLaterGroups` | dbus-serialbattery/bms/eg4_lifepower.py:159-208 | The mapper reads only groups 0 to 7 |
| `Telemetry.MapExamples` | dbus-serialbattery/bms/eg4_lifepower.py:172-175 | Raw 0x1F40 gives 8000 mV; raw current 29000 gives +10.00 A and 31000 gives -10.00 A |
| `Driver.MapInto` | dbus-serialbattery/bms/eg4_lifepower.py:159-208 | The field assignments of the poll in source order keep six temperatures |
| `Driver.MapIntoAgrees` | dbus-serialbattery/bms/eg4_lifepower.py:159-208 | The assignments run to the end exactly when the mapper can read every group, and then leave the readings of the mapped telemetry; otherwise the cells are still replaced from group 0 |
| `Driver.StatusOutcome` | dbus-serialbattery/bms/eg4_lifepower.py:137-209 | A poll returns False exactly on a transport failure or a terminator error, and leaves the readings alone unless the reply was accepted |
| `Driver.StatusOutcomeDecides` | dbus-serialbattery/bms/eg4_lifepower.py:137-209 | A poll returns True exactly when the reply is accepted, decodes and holds every value the mapper indexes; it raises exactly on an empty reply or an accepted reply that fails to decode or lacks such a value |
| `Driver.SettingsOutcome` | dbus-serialbattery/bms/eg4_lifepower.py:97-129 | Reading the settings raises exactly when a version reply is empty, and otherwise succeeds exactly when either version read was accepted |
| `Driver.SettingsEitherRead` | dbus-serialbattery/bms/eg4_lifepower.py:97-129 | Reading the settings returns False only when both version reads fail |
| `Driver.Response` | dbus-serialbattery/bms/eg4_lifepower.py:145-208 | A response reporting a telemetry has ten groups |
| `Driver.ResponseLayout` | dbus-serialbattery/bms/eg4_lifepower.py:145-208 | A response's groups fit their one-byte counts and carry the telemetry's raw groups first |
| `Driver.StatusRoundTrip` | dbus-serialbattery/bms/eg4_lifepower.py:137-209 | A reply encoding a telemetry in its ten groups is accepted and leaves the readings of that telemetry, whatever the readings were before |
| `Driver.EG4Lifepower.Balancing` | dbus-serialbattery/bms/eg4_lifepower.py:211-212 | get_balancing is 0 or 1, and 1 exactly when balancing is non-zero |
| `Driver.EG4Lifepower.GetSettings` | dbus-serialbattery/bms/eg4_lifepower.py:93-129 | The result is the settings outcome of the two replies; each accepted version reply replaces its version string with its sanitised text; the FETs are set on exactly when no exception escapes; the hook count rises once per terminator error |
| `Driver.EG4Lifepower.QueryHardwareVersion` | dbus-serialbattery/bms/eg4_lifepower.py:100-111 | The hardware version becomes the sanitised text of an accepted reply and stays otherwise, and holds only allowed characters |
| `Driver.EG4Lifepower.QueryFirmwareVersion` | dbus-serialbattery/bms/eg4_lifepower.py:113-122 | The firmware version becomes the sanitised text of an accepted reply and stays otherwise, and holds only allowed characters |
| `Driver.EG4Lifepower.SetCells` | dbus-serialbattery/bms/eg4_lifepower.py:159-172 | The cell count is the length of group 0, and each cell's voltage is its masked value |
| `Driver.EG4Lifepower.SetTemperatures` | dbus-serialbattery/bms/eg4_lifepower.py:185-190 | The temperatures present in group 4 are written in order, the others kept, and it raises when fewer than six are present |
| `Driver.EG4Lifepower.MapGroups` | dbus-serialbattery/bms/eg4_lifepower.py:159-209 | The readings become those the field assignments leave, and it returns True exactly when they all ran |
| `Driver.EG4Lifepower.HandleStatus` | dbus-serialbattery/bms/eg4_lifepower.py:137-156 | The outcome and new readings are the status outcome of the reply |
| `Driver.EG4Lifepower.ReadStatusData` | dbus-serialbattery/bms/eg4_lifepower.py:137-141 | The poll sends the general command, and its result and new readings are the status outcome of the reply; versions, FETs and balancing are unchanged |
| `Driver.EG4Lifepower.RefreshData` | dbus-serialbattery/bms/eg4_lifepower.py:131-135 | Refreshing is one status poll |
| `Driver.EG4Lifepower.TestConnection` | dbus-serialbattery/bms/eg4_lifepower.py:35-59 | The test succeeds exactly when the settings and then the status poll both return True; the poll runs only after the settings succeed; an escaping exception makes it fail; the connection-error hook runs once for each version reply and, when the settings succeed, for the status reply with a wrong terminator |
| `Text.AsciiText` | dbus-serialbattery/bms/eg4_lifepower.py:107 | The decoded text holds only ASCII characters, and each ASCII character occurs in it exactly as often as its byte occurs in the reply |
| `Text.AsciiTextAppend` | dbus-serialbattery/bms/eg4_lifepower.py:107 | Decoding works byte by byte: the text of a concatenation is the text of its parts, so characters keep the order of their bytes |
| `Text.AsciiTextOfAscii` | dbus-serialbattery/bms/eg4_lifepower.py:107 | A reply of ASCII bytes only decodes to one character per byte, equal to that byte, in order |
| `Text.Filter` | dbus-serialbattery/bms/eg4_lifepower.py:104-106 | Removes every character outside `[a-zA-Z0-9-._ ]` and keeps the rest in order (its properties are the `Filter` lemmas below) |
| `Text.Sanitize` | dbus-serialbattery/bms/eg4_lifepower.py:104-108 | The stored version string is the filtered decoded text of the reply (its properties are `SanitizeSound` and `SanitizeCounts`) |
| `Text.FilterAllowed` | dbus-serialbattery/bms/eg4_lifepower.py:104-108 | The filter keeps only characters of `[a-zA-Z0-9-._ ]` |
| `Text.FilterSubsequence` | dbus-serialbattery/bms/eg4_lifepower.py:104-108 | The filter only removes characters; it never adds or reorders one |
| `Text.FilterCounts` | dbus-serialbattery/bms/eg4_lifepower.py:104-108 | The filter keeps every occurrence of every allowed character |
| `Text.FilterFixes` | dbus-serialbattery/bms/eg4_lifepower.py:104-108 | Filtering leaves a string unchanged if and only if all its characters are allowed |
| `Text.FilterIdempotent` | dbus-serialbattery/bms/eg4_lifepower.py:104-119 | Filtering twice is filtering once |
| `Text.SanitizeSound` | dbus-serialbattery/bms/eg4_lifepower.py:104-119 | A stored version string holds only allowed characters, is the decoded reply with characters removed, keeps every allowed character, and is unchanged by filtering again |
| `Text.SanitizeCounts` | dbus-serialbattery/bms/eg4_lifepower.py:104-108 | Every allowed character occurs in the stored version string exactly as often as its byte occurs in the reply |

## Left out

- `read_serial_data` (serial port, baud rate, `LENGTH_POS`, `LENGTH_CHECK`, `LENGTH_FIXED`, `battery_online`) is not part of this model. The transport is a parameter: a function from a command to the bytes read back, or `None` for its failure value. A function gives one reply per command, which loses nothing here because each operation sends each command at most once.
- `get_connection_error_message` is not part of this model. Its call is recorded by the counter `connectionErrorReports`; what it does is not modelled.
- Logging (`logger`, `bytearray_to_string`) and, in `test_connection`, the `sys.exc_info` and traceback formatting of a caught exception: they only produce log text. An escaping exception makes the test fail, as in the driver.
- The `Battery` and `Cell` base classes are not part of this model. The constructor starts the fields it does not derive from the address at empty or zero values, since the base class's initial values are not visible. A cell is reduced to its voltage, and the `Cell(True)` argument is not modelled.
- `self.type`, `poll_interval`, `history.exclude_values_to_calculate` and `BATTERYTYPE` are configuration with no behaviour in this file. `history.charge_cycles` is the field `chargeCycles`.
- Float division: cell voltages are kept in millivolts, the current in centiamps, and state of charge, capacity and battery voltage in hundredths, instead of dividing by 1000 and 100.
- `Text.AsciiText`: the reply is decoded by keeping its ASCII bytes, instead of UTF-8 decoding with errors ignored. The two agree after filtering: bytes below 0x80 never occur inside a multi-byte UTF-8 sequence, and every character such decoding yields from other bytes is outside the allowed set.
- The five alarm fields of `self.protection` are set together as one `Protection` value. The driver assigns them one after another, but nothing can raise between those assignments once `groups[5][1]` exists.
- `Driver.EG4Lifepower.TestConnection`: exceptions other than those this file's indexing and unpacking raise (for instance from the serial layer) are not modelled.
