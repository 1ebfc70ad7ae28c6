/** The EG4 Lifepower driver object: its command frames, its settings query, its
    status poll with the fields the poll overwrites, and its connection test. */
module Driver {
  import opened Common
  import opened Frames
  import opened Telemetry
  import Commands
  import Groups
  import Text

  /** How an operation of the driver ends: it returns a boolean, or one of the
      exceptions its indexing or unpacking raises escapes it. */
  datatype Outcome = Returned(ok: bool) | Raised

  /** The serial layer: for each command, the bytes it reads back, or `None` when the
      read fails. */
  type Transport = seq<byte> -> Option<seq<byte>>

  /** The fields a status poll writes; `temperatures` holds `temperature_1` to
      `temperature_6` in order. */
  datatype Readings = Readings(
    cellCount: nat,
    cells: seq<int>,
    current: int,
    soc: int,
    capacity: int,
    temperatures: seq<int>,
    protection: Protection,
    chargeCycles: int,
    voltage: int)

  /** The readings that report `t`. */
  function ReadingsOf(t: Telemetry): Readings {
    Readings(|t.cellMillivolts|, t.cellMillivolts, t.currentCentiamps, t.socHundredths,
      t.capacityHundredths, t.temperatures, t.protection, t.chargeCycles, t.voltageHundredths)
  }

  /** The field assignments of `read_status_data`, in the driver's order, starting from
      the readings `r`: the result holds the readings when the first missing value is
      indexed (or all of them) and whether the mapping ran to the end. */
  function MapInto(r: Readings, groups: seq<seq<u16>>): (result: (Readings, bool))
    requires |groups| >= 8 && |r.temperatures| == 6
    ensures |result.0.temperatures| == 6
  {
    var g := groups;
    var withCells := r.(cellCount := |g[0]|, cells := CellVoltages(g[0]));
    if |g[1]| < 1 then (withCells, false) else
    var withCurrent := withCells.(current := CurrentCentiamps(g[1][0]));
    if |g[2]| < 1 then (withCurrent, false) else
    var withSoc := withCurrent.(soc := g[2][0]);
    if |g[3]| < 1 then (withSoc, false) else
    var withCapacity := withSoc.(capacity := g[3][0]);
    var withTemperatures := withCapacity.(temperatures :=
      seq(6, k requires 0 <= k < 6 => if k < |g[4]| then Temperature(g[4][k]) else r.temperatures[k]));
    if |g[4]| < 6 then (withTemperatures, false) else
    if |g[5]| < 2 then (withTemperatures, false) else
    var withProtection := withTemperatures.(protection := Alarms(g[5][1]));
    if |g[6]| < 1 then (withProtection, false) else
    var withCycles := withProtection.(chargeCycles := g[6][0]);
    if |g[7]| < 1 then (withCycles, false) else
    (withCycles.(voltage := g[7][0]), true)
  }

  /** The assignments run to the end exactly when the mapper can read every group, and
      then they leave the readings of the mapped telemetry, whatever came before.
      Otherwise the cells are still replaced by those of group 0. */
  lemma MapIntoAgrees(r: Readings, groups: seq<seq<u16>>)
    requires |groups| >= 8 && |r.temperatures| == 6
    ensures MapInto(r, groups).1 <==> Accepts(groups)
    ensures Accepts(groups) ==> MapInto(r, groups).0 == ReadingsOf(Map(groups))
    ensures MapInto(r, groups).0.cellCount == |groups[0]|
    ensures MapInto(r, groups).0.cells == CellVoltages(groups[0])
  {
    if Accepts(groups) {
      var ts := MapInto(r, groups).0.temperatures;
      assert ts == Temperatures(groups[4]) by {
        forall k | 0 <= k < 6 ensures ts[k] == Temperatures(groups[4])[k] {
        }
      }
    }
  }

  /** What `read_status_data` returns and leaves for a reply to the general command. */
  function StatusOutcome(reply: Reply, r: Readings): (result: (Outcome, Readings))
    requires |r.temperatures| == 6
    ensures result.0 == Returned(false) <==> reply.TransportFailed? || reply.BadTerminator?
    ensures !reply.Accepted? ==> result.1 == r
    ensures |result.1.temperatures| == 6
  {
    match reply
    case Accepted(data) =>
      (match Groups.Decode(data)
       case None => (Raised, r)
       case Some(groups) =>
         var mapped := MapInto(r, groups);
         (if mapped.1 then Returned(true) else Raised, mapped.0))
    case EmptyRead => (Raised, r)
    case _ => (Returned(false), r)
  }

  /** A poll returns True exactly when the reply is accepted, decodes, and holds every
      value the mapper indexes; it raises exactly on an empty reply or when an accepted
      reply fails to decode or lacks such a value. */
  lemma StatusOutcomeDecides(reply: Reply, r: Readings)
    requires |r.temperatures| == 6
    ensures StatusOutcome(reply, r).0 == Returned(true) <==>
      reply.Accepted? && Groups.Decode(reply.data).Some? && Accepts(Groups.Decode(reply.data).value)
    ensures StatusOutcome(reply, r).0 == Raised <==>
      reply.EmptyRead? ||
      (reply.Accepted? && (Groups.Decode(reply.data).None? || !Accepts(Groups.Decode(reply.data).value)))
  {
    if reply.Accepted? && Groups.Decode(reply.data).Some? {
      MapIntoAgrees(r, Groups.Decode(reply.data).value);
    }
  }

  /** What `get_settings` returns for its two replies; the firmware version is not
      read when reading the hardware version raised. */
  function SettingsOutcome(hardware: Reply, firmware: Reply): (r: Outcome)
    ensures r.Raised? <==> hardware.EmptyRead? || firmware.EmptyRead?
    ensures r.Returned? ==> (r.ok <==> hardware.Accepted? || firmware.Accepted?)
  {
    if hardware.EmptyRead? || firmware.EmptyRead? then Raised
    else Returned(hardware.Accepted? || firmware.Accepted?)
  }

  /** Settings succeed when either version read succeeds and fail only when both fail. */
  lemma SettingsEitherRead(hardware: Reply, firmware: Reply)
    requires !hardware.EmptyRead? && !firmware.EmptyRead?
    ensures SettingsOutcome(hardware, firmware) == Returned(false) <==> !hardware.Accepted? && !firmware.Accepted?
  {
  }

  /** The ten groups a device sends for `t`: its eight groups with the given ids,
      followed by two further groups. */
  function Response(t: Telemetry, ids: seq<byte>, later: seq<Groups.Group>): (gs: seq<Groups.Group>)
    requires InRange(t) && |ids| == 8 && |later| == 2
    ensures |gs| == 10
  {
    var raw := Raw(t);
    seq(8, k requires 0 <= k < 8 => Groups.Group(ids[k], raw[k])) + later
  }

  /** The groups of a response fit their one-byte counts, and their values are the
      eight groups that report `t` followed by those of the later groups. */
  lemma ResponseLayout(t: Telemetry, ids: seq<byte>, later: seq<Groups.Group>)
    requires InRange(t) && |t.cellMillivolts| < 0x100
    requires |ids| == 8 && |later| == 2 && Groups.Encodable(later[0]) && Groups.Encodable(later[1])
    ensures var gs := Response(t, ids, later);
      (forall k :: 0 <= k < |gs| ==> Groups.Encodable(gs[k])) &&
      Groups.ValuesOf(gs) == Raw(t) + Groups.ValuesOf(later)
  {
    var gs := Response(t, ids, later);
    var raw := Raw(t);
    forall k | 0 <= k < |gs|
      ensures Groups.Encodable(gs[k])
      ensures Groups.ValuesOf(gs)[k] == (raw + Groups.ValuesOf(later))[k]
    {
      if k < 8 {
        assert gs[k].values == raw[k];
      } else {
        assert gs[k] == later[k - 8];
      }
    }
  }

  /** A response that reports `t` in its ten groups, after any four-byte prefix and
      before any bytes ending with the terminator, is accepted and leaves the readings
      of `t`, whatever the readings were before and whatever the later groups hold. */
  lemma StatusRoundTrip(t: Telemetry, ids: seq<byte>, later: seq<Groups.Group>,
                        prefix: seq<byte>, rest: seq<byte>, r: Readings)
    requires InRange(t) && |t.cellMillivolts| < 0x100
    requires |ids| == 8 && |later| == 2 && Groups.Encodable(later[0]) && Groups.Encodable(later[1])
    requires |prefix| == Groups.FirstGroupOffset && |r.temperatures| == 6
    ensures var gs := Response(t, ids, later);
      var data := prefix + Groups.EncodeGroups(gs) + (rest + [Terminator]);
      CheckTerminator(Some(data)) == Accepted(data) &&
      StatusOutcome(Accepted(data), r) == (Returned(true), ReadingsOf(t))
  {
    var gs := Response(t, ids, later);
    ResponseLayout(t, ids, later);
    var body := prefix + Groups.EncodeGroups(gs) + rest;
    var data := prefix + Groups.EncodeGroups(gs) + (rest + [Terminator]);
    assert data == body + [Terminator];
    TerminatorDecides(body, Terminator);
    Groups.DecodeEncode(prefix, gs, rest + [Terminator]);
    var groups := Groups.ValuesOf(gs);
    MapRaw(t);
    MapIgnoresLaterGroups(Raw(t), Groups.ValuesOf(later));
    MapIntoAgrees(r, groups);
  }

  /** The driver object for one device address. */
  class EG4Lifepower {
    const address: byte
    const commandGeneral: seq<byte>
    const commandHardwareVersion: seq<byte>
    const commandFirmwareVersion: seq<byte>

    /** The class attribute; the device has no balancer. */
    var balancing: int

    var hardwareVersion: string
    var version: string
    var chargeFet: bool
    var dischargeFet: bool

    /** How many times the connection-error hook has been called. */
    var connectionErrorReports: nat

    var cellCount: nat
    var cells: seq<int>
    var current: int
    var soc: int
    var capacity: int
    var temperatures: seq<int>
    var protection: Protection
    var chargeCycles: int
    var voltage: int

    /** Six temperature fields, and version strings that the sanitiser left. */
    predicate Valid()
      reads this
    {
      |temperatures| == 6 && Text.AllAllowed(hardwareVersion) && Text.AllAllowed(version)
    }

    function Snapshot(): Readings
      reads this
    {
      Readings(cellCount, cells, current, soc, capacity, temperatures, protection, chargeCycles, voltage)
    }

    /** Builds the three command frames for the address. */
    constructor(address: byte)
      ensures this.address == address
      ensures commandGeneral == Commands.GeneralCommand(address)
      ensures commandHardwareVersion == Commands.HardwareVersionCommand(address)
      ensures commandFirmwareVersion == Commands.FirmwareVersionCommand(address)
      ensures balancing == 0 && connectionErrorReports == 0
      ensures Valid()
    {
      this.address := address;
      commandGeneral := [Commands.StartByte, address, Commands.GeneralFunction, 0x00] + [Commands.Trailer(address), Commands.EndByte];
      commandHardwareVersion := [Commands.StartByte, address, Commands.HardwareVersionFunction, 0x00, 0xFC, Commands.EndByte];
      commandFirmwareVersion := [Commands.StartByte, address, Commands.FirmwareVersionFunction, 0x00] + [Commands.Trailer(address), Commands.EndByte];
      balancing := 0;
      hardwareVersion := "";
      version := "";
      chargeFet := false;
      dischargeFet := false;
      connectionErrorReports := 0;
      cellCount := 0;
      cells := [];
      current := 0;
      soc := 0;
      capacity := 0;
      temperatures := [0, 0, 0, 0, 0, 0];
      protection := Protection(0, 0, 0, 0, 0);
      chargeCycles := 0;
      voltage := 0;
    }

    /** `get_balancing`: 1 when balancing is on, else 0. */
    function Balancing(): (b: int)
      reads this
      ensures b == 0 || b == 1
      ensures b == 1 <==> balancing != 0
    {
      if balancing != 0 || balancing == 2 then 1 else 0
    }

    /** Sends `command` and checks the terminator of what comes back, calling the
        connection-error hook when it is wrong. */
    method ReadSerialDataEG4(command: seq<byte>, transport: Transport) returns (reply: Reply)
      modifies this`connectionErrorReports
      ensures reply == CheckTerminator(transport(command))
      ensures connectionErrorReports == old(connectionErrorReports) + (if reply.BadTerminator? then 1 else 0)
    {
      var data := transport(command);
      if data.None? {
        return TransportFailed;
      }
      if data.value == [] {
        return EmptyRead;
      }
      if data.value[|data.value| - 1] == Terminator {
        return Accepted(data.value);
      }
      connectionErrorReports := connectionErrorReports + 1;
      return BadTerminator;
    }

    /** Queries both versions, keeps the sanitised text of each accepted reply, and
        then marks both FETs on. */
    method GetSettings(transport: Transport) returns (r: Outcome)
      requires Valid()
      modifies this`connectionErrorReports, this`hardwareVersion, this`version, this`chargeFet, this`dischargeFet
      ensures Valid()
      ensures var hardware := CheckTerminator(transport(commandHardwareVersion));
        var firmware := CheckTerminator(transport(commandFirmwareVersion));
        r == SettingsOutcome(hardware, firmware) &&
        hardwareVersion == (if hardware.Accepted? then Text.Sanitize(hardware.data) else old(hardwareVersion)) &&
        version == (if !hardware.EmptyRead? && firmware.Accepted? then Text.Sanitize(firmware.data) else old(version)) &&
        connectionErrorReports == old(connectionErrorReports) + (if hardware.BadTerminator? then 1 else 0) +
          (if !hardware.EmptyRead? && firmware.BadTerminator? then 1 else 0)
      ensures chargeFet == (r.Returned? || old(chargeFet)) && dischargeFet == (r.Returned? || old(dischargeFet))
    {
      var hardware := QueryHardwareVersion(transport);
      if hardware.EmptyRead? {
        return Raised;
      }
      var firmware := QueryFirmwareVersion(transport);
      if firmware.EmptyRead? {
        return Raised;
      }
      chargeFet := true;
      dischargeFet := true;
      return Returned(hardware.Accepted? || firmware.Accepted?);
    }

    /** Reads the hardware version and stores the sanitised text of an accepted reply. */
    method QueryHardwareVersion(transport: Transport) returns (reply: Reply)
      requires Text.AllAllowed(hardwareVersion)
      modifies this`connectionErrorReports, this`hardwareVersion
      ensures reply == CheckTerminator(transport(commandHardwareVersion))
      ensures connectionErrorReports == old(connectionErrorReports) + (if reply.BadTerminator? then 1 else 0)
      ensures hardwareVersion == if reply.Accepted? then Text.Sanitize(reply.data) else old(hardwareVersion)
      ensures Text.AllAllowed(hardwareVersion)
    {
      reply := ReadSerialDataEG4(commandHardwareVersion, transport);
      if reply.Accepted? {
        hardwareVersion := Text.Sanitize(reply.data);
        Text.SanitizeSound(reply.data);
      }
    }

    /** Reads the firmware version and stores the sanitised text of an accepted reply. */
    method QueryFirmwareVersion(transport: Transport) returns (reply: Reply)
      requires Text.AllAllowed(version)
      modifies this`connectionErrorReports, this`version
      ensures reply == CheckTerminator(transport(commandFirmwareVersion))
      ensures connectionErrorReports == old(connectionErrorReports) + (if reply.BadTerminator? then 1 else 0)
      ensures version == if reply.Accepted? then Text.Sanitize(reply.data) else old(version)
      ensures Text.AllAllowed(version)
    {
      reply := ReadSerialDataEG4(commandFirmwareVersion, transport);
      if reply.Accepted? {
        version := Text.Sanitize(reply.data);
        Text.SanitizeSound(reply.data);
      }
    }

    /** Rebuilds the cell list from group 0 and sets each cell's voltage. */
    method SetCells(raw: seq<u16>)
      modifies this`cellCount, this`cells
      ensures cellCount == |raw| && cells == CellVoltages(raw)
    {
      cellCount := |raw|;
      cells := seq(|raw|, _ => 0);
      var i := 0;
      while i < |raw|
        invariant 0 <= i <= |raw| && |cells| == |raw| && cellCount == |raw|
        invariant forall k :: 0 <= k < i ==> cells[k] == CellMillivolts(raw[k])
      {
        cells := cells[i := CellMillivolts(raw[i])];
        i := i + 1;
      }
    }

    /** Polls the general status and overwrites the readings, field by field. */
    method ReadStatusData(transport: Transport) returns (r: Outcome)
      requires Valid()
      modifies this
      ensures Valid()
      ensures var reply := CheckTerminator(transport(commandGeneral));
        (r, Snapshot()) == StatusOutcome(reply, old(Snapshot())) &&
        connectionErrorReports == old(connectionErrorReports) + (if reply.BadTerminator? then 1 else 0)
      ensures hardwareVersion == old(hardwareVersion) && version == old(version)
      ensures chargeFet == old(chargeFet) && dischargeFet == old(dischargeFet) && balancing == old(balancing)
    {
      ghost var before := Snapshot();
      var reply := ReadSerialDataEG4(commandGeneral, transport);
      assert Snapshot() == before;
      r := HandleStatus(reply);
    }

    /** What the poll does with the reply to the general command: a rejected reply ends
        it, an accepted one is decoded and mapped. */
    method HandleStatus(reply: Reply) returns (r: Outcome)
      requires Valid()
      modifies this`cellCount, this`cells, this`current, this`soc, this`capacity,
        this`temperatures, this`protection, this`chargeCycles, this`voltage
      ensures Valid()
      ensures (r, Snapshot()) == StatusOutcome(reply, old(Snapshot()))
    {
      if reply.EmptyRead? {
        return Raised;
      }
      if !reply.Accepted? {
        return Returned(false);
      }
      var decoded := Groups.DecodeStatus(reply.data);
      if decoded.None? {
        return Raised;
      }
      r := MapGroups(decoded.value);
    }

    /** The field assignments of the poll for decoded groups, in order; the first
        value that is missing raises, leaving the fields assigned before it. */
    method MapGroups(groups: seq<seq<u16>>) returns (r: Outcome)
      requires Valid() && |groups| >= 8
      modifies this`cellCount, this`cells, this`current, this`soc, this`capacity,
        this`temperatures, this`protection, this`chargeCycles, this`voltage
      ensures Valid()
      ensures var mapped := MapInto(old(Snapshot()), groups);
        Snapshot() == mapped.0 && r == (if mapped.1 then Returned(true) else Raised)
    {
      ghost var before := Snapshot();
      SetCells(groups[0]);
      if |groups[1]| < 1 {
        return Raised;
      }
      current := CurrentCentiamps(groups[1][0]);
      if |groups[2]| < 1 {
        return Raised;
      }
      soc := groups[2][0];
      if |groups[3]| < 1 {
        return Raised;
      }
      capacity := groups[3][0];
      r := SetTemperatures(groups[4]);
      assert temperatures == seq(6, k requires 0 <= k < 6 =>
        if k < |groups[4]| then Temperature(groups[4][k]) else before.temperatures[k]);
      if r.Raised? {
        return;
      }
      if |groups[5]| < 2 {
        return Raised;
      }
      protection := Alarms(groups[5][1]);
      if |groups[6]| < 1 {
        return Raised;
      }
      chargeCycles := groups[6][0];
      if |groups[7]| < 1 {
        return Raised;
      }
      voltage := groups[7][0];
      return Returned(true);
    }

    /** The six temperature assignments; the first one whose value is missing raises. */
    method SetTemperatures(raw: seq<u16>) returns (r: Outcome)
      requires |temperatures| == 6
      modifies this`temperatures
      ensures |temperatures| == 6
      ensures forall k :: 0 <= k < 6 ==>
        temperatures[k] == if k < |raw| then Temperature(raw[k]) else old(temperatures[k])
      ensures r == (if |raw| < 6 then Raised else Returned(true))
    {
      if |raw| < 1 { return Raised; }
      temperatures := temperatures[0 := Temperature(raw[0])];
      if |raw| < 2 { return Raised; }
      temperatures := temperatures[1 := Temperature(raw[1])];
      if |raw| < 3 { return Raised; }
      temperatures := temperatures[2 := Temperature(raw[2])];
      if |raw| < 4 { return Raised; }
      temperatures := temperatures[3 := Temperature(raw[3])];
      if |raw| < 5 { return Raised; }
      temperatures := temperatures[4 := Temperature(raw[4])];
      if |raw| < 6 { return Raised; }
      temperatures := temperatures[5 := Temperature(raw[5])];
      return Returned(true);
    }

    /** `refresh_data` polls the status. */
    method RefreshData(transport: Transport) returns (r: Outcome)
      requires Valid()
      modifies this
      ensures Valid()
      ensures var reply := CheckTerminator(transport(commandGeneral));
        (r, Snapshot()) == StatusOutcome(reply, old(Snapshot())) &&
        connectionErrorReports == old(connectionErrorReports) + (if reply.BadTerminator? then 1 else 0)
      ensures hardwareVersion == old(hardwareVersion) && version == old(version)
      ensures chargeFet == old(chargeFet) && dischargeFet == old(dischargeFet) && balancing == old(balancing)
    {
      r := ReadStatusData(transport);
    }

    /** Reads the settings and, only when they succeed, the status; an exception
        escaping either makes the test fail. */
    method TestConnection(transport: Transport) returns (ok: bool)
      requires Valid()
      modifies this
      ensures Valid()
      ensures var hardware := CheckTerminator(transport(commandHardwareVersion));
        var firmware := CheckTerminator(transport(commandFirmwareVersion));
        var settings := SettingsOutcome(hardware, firmware);
        var status := StatusOutcome(CheckTerminator(transport(commandGeneral)), old(Snapshot()));
        (ok <==> settings == Returned(true) && status.0 == Returned(true)) &&
        Snapshot() == (if settings == Returned(true) then status.1 else old(Snapshot())) &&
        hardwareVersion == (if hardware.Accepted? then Text.Sanitize(hardware.data) else old(hardwareVersion)) &&
        version == (if !hardware.EmptyRead? && firmware.Accepted? then Text.Sanitize(firmware.data) else old(version)) &&
        chargeFet == (settings.Returned? || old(chargeFet)) &&
        dischargeFet == (settings.Returned? || old(dischargeFet))
      ensures var hardware := CheckTerminator(transport(commandHardwareVersion));
        var firmware := CheckTerminator(transport(commandFirmwareVersion));
        var status := CheckTerminator(transport(commandGeneral));
        connectionErrorReports == old(connectionErrorReports) + (if hardware.BadTerminator? then 1 else 0) +
          (if !hardware.EmptyRead? && firmware.BadTerminator? then 1 else 0) +
          (if SettingsOutcome(hardware, firmware) == Returned(true) && status.BadTerminator? then 1 else 0)
      ensures balancing == old(balancing)
    {
      var settings := GetSettings(transport);
      if settings != Returned(true) {
        return false;
      }
      var status := RefreshData(transport);
      return status == Returned(true);
    }
  }
}
