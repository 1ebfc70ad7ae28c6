/** The field mapping of `read_status_data`: decoded groups to cell voltages, current,
    state of charge, capacity, temperatures, alarms, charge cycles and battery voltage.
    Values that the driver divides into floats are kept as scaled integers:
    millivolts, centiamps and hundredths. */
module Telemetry {
  import opened Common

  /** Offset of the current: the device sends 30000 minus the current in centiamps. */
  const CurrentOffset: int := 30000
  /** Offset of the temperatures: the device sends the temperature plus 50. */
  const TemperatureOffset: int := 50
  /** The severity the driver reports for an alarm whose bit is set. */
  const AlarmSet: int := 2

  /** A cell voltage in millivolts: the low 14 bits of the raw value (`& 0x3FFF`). */
  function CellMillivolts(raw: u16): (mv: int)
    ensures 0 <= mv <= 0x3FFF
    ensures (raw - mv) % 0x4000 == 0
  {
    raw % 0x4000
  }

  /** The two top bits, which may carry an alarm indication, never change a cell voltage. */
  lemma CellIgnoresTopBits(top: int, mv: int)
    requires 0 <= top < 4 && 0 <= mv <= 0x3FFF
    ensures CellMillivolts(top * 0x4000 + mv) == mv
  {
  }

  /** The current in centiamps, positive while charging. */
  function CurrentCentiamps(raw: u16): (c: int)
    ensures c > 0 <==> raw < CurrentOffset
    ensures c < 0 <==> raw > CurrentOffset
    ensures CurrentOffset - 0xFFFF <= c <= CurrentOffset
  {
    CurrentOffset - raw
  }

  /** A temperature in degrees Celsius: the low byte of the raw value (`& 0xFF`) minus 50. */
  function Temperature(raw: u16): (t: int)
    ensures -TemperatureOffset <= t <= 0xFF - TemperatureOffset
    ensures (raw - (t + TemperatureOffset)) % 0x100 == 0
  {
    raw % 0x100 - TemperatureOffset
  }

  /** Whether the bit of value `mask` (a power of two) is set in `flags`. */
  predicate BitSet(flags: u16, mask: nat)
    requires mask > 0
  {
    (flags / mask) % 2 == 1
  }

  function Alarm(raised: bool): (a: int)
    ensures a == 0 || a == AlarmSet
    ensures a == AlarmSet <==> raised
  {
    if raised then AlarmSet else 0
  }

  /** The five alarm levels the driver reports. */
  datatype Protection = Protection(
    highChargeCurrent: int,
    highVoltage: int,
    lowVoltage: int,
    highChargeTemperature: int,
    lowChargeTemperature: int)

  predicate ValidProtection(p: Protection) {
    (p.highChargeCurrent == 0 || p.highChargeCurrent == AlarmSet) &&
    (p.highVoltage == 0 || p.highVoltage == AlarmSet) &&
    (p.lowVoltage == 0 || p.lowVoltage == AlarmSet) &&
    (p.highChargeTemperature == 0 || p.highChargeTemperature == AlarmSet) &&
    (p.lowChargeTemperature == 0 || p.lowChargeTemperature == AlarmSet)
  }

  /** The alarms of the flags word: bits 3 to 7 in the order of the fields. */
  function Alarms(flags: u16): (p: Protection)
    ensures ValidProtection(p)
  {
    Protection(
      Alarm(BitSet(flags, 0x08)),
      Alarm(BitSet(flags, 0x10)),
      Alarm(BitSet(flags, 0x20)),
      Alarm(BitSet(flags, 0x40)),
      Alarm(BitSet(flags, 0x80)))
  }

  /** The flags word that carries exactly the given alarms. */
  function AlarmBits(p: Protection): (flags: u16)
    requires ValidProtection(p)
    ensures flags < 0x100 && flags % 8 == 0
  {
    (if p.highChargeCurrent == AlarmSet then 0x08 else 0) +
    (if p.highVoltage == AlarmSet then 0x10 else 0) +
    (if p.lowVoltage == AlarmSet then 0x20 else 0) +
    (if p.highChargeTemperature == AlarmSet then 0x40 else 0) +
    (if p.lowChargeTemperature == AlarmSet then 0x80 else 0)
  }

  /** The word carrying the alarms of `p` over the given low bits and high byte. */
  function AlarmWord(p: Protection, low: nat, high: nat): (flags: u16)
    requires ValidProtection(p) && low < 8 && high < 0x100
  {
    high * 0x100 + AlarmBits(p) + low
  }

  /** The digit of each alarm in a word that carries it. */
  function Digit(alarm: int): nat {
    if alarm == AlarmSet then 1 else 0
  }

  lemma AlarmWordDigits(p: Protection, low: nat, high: nat)
    requires ValidProtection(p) && low < 8 && high < 0x100
    ensures AlarmWord(p, low, high) ==
      high * 0x100 + Digit(p.lowChargeTemperature) * 0x80 + Digit(p.highChargeTemperature) * 0x40 +
      Digit(p.lowVoltage) * 0x20 + Digit(p.highVoltage) * 0x10 + Digit(p.highChargeCurrent) * 0x08 + low
  {
  }

  /** The bit of a mask in a word made of a higher part, a binary digit at that mask
      and lower bits is that digit; one lemma per mask of the flags word. */
  lemma DigitAtBit3(higher: int, d: int, lower: int)
    requires higher >= 0 && 0 <= d < 2 && 0 <= lower < 0x08
    ensures ((higher * 0x10 + d * 0x08 + lower) / 0x08) % 2 == d
  {
    assert (higher * 0x10 + d * 0x08 + lower) / 0x08 == 2 * higher + d;
  }

  lemma DigitAtBit4(higher: int, d: int, lower: int)
    requires higher >= 0 && 0 <= d < 2 && 0 <= lower < 0x10
    ensures ((higher * 0x20 + d * 0x10 + lower) / 0x10) % 2 == d
  {
    assert (higher * 0x20 + d * 0x10 + lower) / 0x10 == 2 * higher + d;
  }

  lemma DigitAtBit5(higher: int, d: int, lower: int)
    requires higher >= 0 && 0 <= d < 2 && 0 <= lower < 0x20
    ensures ((higher * 0x40 + d * 0x20 + lower) / 0x20) % 2 == d
  {
    assert (higher * 0x40 + d * 0x20 + lower) / 0x20 == 2 * higher + d;
  }

  lemma DigitAtBit6(higher: int, d: int, lower: int)
    requires higher >= 0 && 0 <= d < 2 && 0 <= lower < 0x40
    ensures ((higher * 0x80 + d * 0x40 + lower) / 0x40) % 2 == d
  {
    assert (higher * 0x80 + d * 0x40 + lower) / 0x40 == 2 * higher + d;
  }

  lemma DigitAtBit7(higher: int, d: int, lower: int)
    requires higher >= 0 && 0 <= d < 2 && 0 <= lower < 0x80
    ensures ((higher * 0x100 + d * 0x80 + lower) / 0x80) % 2 == d
  {
    assert (higher * 0x100 + d * 0x80 + lower) / 0x80 == 2 * higher + d;
  }

  /** Each alarm's bit in a word that carries it is set exactly when the alarm is
      raised, whatever the other bits hold. */
  lemma ReadHighChargeCurrent(p: Protection, low: nat, high: nat)
    requires ValidProtection(p) && low < 8 && high < 0x100
    ensures BitSet(AlarmWord(p, low, high), 0x08) <==> p.highChargeCurrent == AlarmSet
  {
    AlarmWordDigits(p, low, high);
    DigitAtBit3(high * 0x10 + Digit(p.lowChargeTemperature) * 0x8 + Digit(p.highChargeTemperature) * 0x4 +
      Digit(p.lowVoltage) * 0x2 + Digit(p.highVoltage), Digit(p.highChargeCurrent), low);
  }

  lemma ReadHighVoltage(p: Protection, low: nat, high: nat)
    requires ValidProtection(p) && low < 8 && high < 0x100
    ensures BitSet(AlarmWord(p, low, high), 0x10) <==> p.highVoltage == AlarmSet
  {
    AlarmWordDigits(p, low, high);
    DigitAtBit4(high * 0x8 + Digit(p.lowChargeTemperature) * 0x4 + Digit(p.highChargeTemperature) * 0x2 +
      Digit(p.lowVoltage), Digit(p.highVoltage), Digit(p.highChargeCurrent) * 0x08 + low);
  }

  lemma ReadLowVoltage(p: Protection, low: nat, high: nat)
    requires ValidProtection(p) && low < 8 && high < 0x100
    ensures BitSet(AlarmWord(p, low, high), 0x20) <==> p.lowVoltage == AlarmSet
  {
    AlarmWordDigits(p, low, high);
    DigitAtBit5(high * 0x4 + Digit(p.lowChargeTemperature) * 0x2 + Digit(p.highChargeTemperature),
      Digit(p.lowVoltage), Digit(p.highVoltage) * 0x10 + Digit(p.highChargeCurrent) * 0x08 + low);
  }

  lemma ReadHighChargeTemperature(p: Protection, low: nat, high: nat)
    requires ValidProtection(p) && low < 8 && high < 0x100
    ensures BitSet(AlarmWord(p, low, high), 0x40) <==> p.highChargeTemperature == AlarmSet
  {
    AlarmWordDigits(p, low, high);
    DigitAtBit6(high * 0x2 + Digit(p.lowChargeTemperature), Digit(p.highChargeTemperature),
      Digit(p.lowVoltage) * 0x20 + Digit(p.highVoltage) * 0x10 + Digit(p.highChargeCurrent) * 0x08 + low);
  }

  lemma ReadLowChargeTemperature(p: Protection, low: nat, high: nat)
    requires ValidProtection(p) && low < 8 && high < 0x100
    ensures BitSet(AlarmWord(p, low, high), 0x80) <==> p.lowChargeTemperature == AlarmSet
  {
    AlarmWordDigits(p, low, high);
    DigitAtBit7(high, Digit(p.lowChargeTemperature), Digit(p.highChargeTemperature) * 0x40 + Digit(p.lowVoltage) * 0x20 +
      Digit(p.highVoltage) * 0x10 + Digit(p.highChargeCurrent) * 0x08 + low);
  }

  /** The alarms are read back from their bits whatever the three low bits and the
      high byte of the flags word hold. */
  lemma AlarmsRoundTrip(p: Protection, low: nat, high: nat)
    requires ValidProtection(p) && low < 8 && high < 0x100
    ensures Alarms(AlarmWord(p, low, high)) == p
  {
    ReadHighChargeCurrent(p, low, high);
    ReadHighVoltage(p, low, high);
    ReadLowVoltage(p, low, high);
    ReadHighChargeTemperature(p, low, high);
    ReadLowChargeTemperature(p, low, high);
  }

  lemma AlarmsOfBits(p: Protection)
    requires ValidProtection(p)
    ensures Alarms(AlarmBits(p)) == p
  {
    AlarmsRoundTrip(p, 0, 0);
    assert AlarmWord(p, 0, 0) == AlarmBits(p);
  }

  /** Bits 4 and 6 set (0b01010000) report the high-voltage and high-charge-temperature
      alarms and no other. */
  lemma AlarmsExample()
    ensures Alarms(0x50) == Protection(0, AlarmSet, 0, AlarmSet, 0)
  {
  }

  /** What one status response reports. */
  datatype Telemetry = Telemetry(
    cellMillivolts: seq<int>,
    currentCentiamps: int,
    socHundredths: int,
    capacityHundredths: int,
    temperatures: seq<int>,
    protection: Protection,
    chargeCycles: int,
    voltageHundredths: int)

  /** The values a status response can report. */
  predicate InRange(t: Telemetry) {
    (forall k :: 0 <= k < |t.cellMillivolts| ==> 0 <= t.cellMillivolts[k] <= 0x3FFF) &&
    CurrentOffset - 0xFFFF <= t.currentCentiamps <= CurrentOffset &&
    0 <= t.socHundredths <= 0xFFFF &&
    0 <= t.capacityHundredths <= 0xFFFF &&
    |t.temperatures| == 6 &&
    (forall k :: 0 <= k < 6 ==> -TemperatureOffset <= t.temperatures[k] <= 0xFF - TemperatureOffset) &&
    ValidProtection(t.protection) &&
    0 <= t.chargeCycles <= 0xFFFF &&
    0 <= t.voltageHundredths <= 0xFFFF
  }

  /** The groups the mapper reads hold the values it indexes: at least eight groups,
      one value in groups 1 to 3, 6 and 7, six in group 4 and two in group 5. */
  predicate Accepts(groups: seq<seq<u16>>) {
    |groups| >= 8 &&
    |groups[1]| >= 1 && |groups[2]| >= 1 && |groups[3]| >= 1 &&
    |groups[4]| >= 6 && |groups[5]| >= 2 &&
    |groups[6]| >= 1 && |groups[7]| >= 1
  }

  /** One cell voltage per value of group 0. */
  function CellVoltages(raw: seq<u16>): (mv: seq<int>)
    ensures |mv| == |raw|
    ensures forall k :: 0 <= k < |raw| ==> mv[k] == CellMillivolts(raw[k])
  {
    seq(|raw|, k requires 0 <= k < |raw| => CellMillivolts(raw[k]))
  }

  /** The temperatures of the first six values of group 4. */
  function Temperatures(raw: seq<u16>): (ts: seq<int>)
    requires |raw| >= 6
    ensures |ts| == 6
    ensures forall k :: 0 <= k < 6 ==> ts[k] == Temperature(raw[k])
  {
    seq(6, k requires 0 <= k < 6 => Temperature(raw[k]))
  }

  /** The telemetry of a response whose groups the mapper can read in full. */
  function Map(groups: seq<seq<u16>>): (t: Telemetry)
    requires Accepts(groups)
    ensures InRange(t)
    ensures |t.cellMillivolts| == |groups[0]|
    ensures t.currentCentiamps > 0 <==> groups[1][0] < CurrentOffset
  {
    Telemetry(
      CellVoltages(groups[0]),
      CurrentCentiamps(groups[1][0]),
      groups[2][0],
      groups[3][0],
      Temperatures(groups[4]),
      Alarms(groups[5][1]),
      groups[6][0],
      groups[7][0])
  }

  /** The eight groups a device sends to report `t`. */
  function Raw(t: Telemetry): (groups: seq<seq<u16>>)
    requires InRange(t)
    ensures |groups| == 8
  {
    [ t.cellMillivolts,
      [CurrentOffset - t.currentCentiamps],
      [t.socHundredths],
      [t.capacityHundredths],
      seq(6, k requires 0 <= k < 6 => t.temperatures[k] + TemperatureOffset),
      [0, AlarmBits(t.protection)],
      [t.chargeCycles],
      [t.voltageHundredths] ]
  }

  /** Every reportable telemetry is mapped back from the groups that report it, so the
      mapper loses nothing within the ranges of the fields. */
  lemma MapRaw(t: Telemetry)
    requires InRange(t)
    ensures Accepts(Raw(t))
    ensures Map(Raw(t)) == t
  {
    var groups := Raw(t);
    AlarmsOfBits(t.protection);
    assert Map(groups).cellMillivolts == t.cellMillivolts;
    assert Map(groups).temperatures == t.temperatures;
  }

  /** The mapper reads only groups 0 to 7: groups after them do not change its result. */
  lemma MapIgnoresLaterGroups(groups: seq<seq<u16>>, later: seq<seq<u16>>)
    requires Accepts(groups)
    ensures Accepts(groups + later) && Map(groups + later) == Map(groups)
  {
    var all := groups + later;
    assert forall k :: 0 <= k < 8 ==> all[k] == groups[k];
  }

  /** Worked values: a cell of 0x1F40 reads 8000 mV, and raw currents 1000 below and
      above the offset read as charging and discharging at 10 A. */
  lemma MapExamples()
    ensures CellMillivolts(0x1F40) == 8000
    ensures CurrentCentiamps(29000) == 1000
    ensures CurrentCentiamps(31000) == -1000
  {
  }
}
