/** The three command frames the driver precomputes for a device address. */
module Commands {
  import opened Common

  const StartByte: byte := 0x7E
  const EndByte: byte := 0x0D

  /** Function codes of the three commands. */
  const GeneralFunction: byte := 0x01
  const HardwareVersionFunction: byte := 0x42
  const FirmwareVersionFunction: byte := 0x33

  /** The second-to-last byte of the general and firmware commands, looked up from
      the address byte; every address has one, so there is no error path. */
  function Trailer(address: byte): (t: byte)
    ensures t in {0x00, 0xFC, 0xF8, 0xF0, 0xFE}
    ensures t == 0x00 <==> address == 0x00
  {
    if address == 0x00 then 0x00
    else if address == 0x02 || address == 0x06 || address == 0x0A || address == 0x0E then 0xFC
    else if address == 0x04 || address == 0x0C then 0xF8
    else if address == 0x08 then 0xF0
    else 0xFE
  }

  /** `7E <addr> <function> 00 <part> 0D` */
  function Frame(address: byte, function_: byte, part: byte): (f: seq<byte>)
    ensures |f| == 6 && f[0] == StartByte && f[|f| - 1] == EndByte
  {
    [StartByte, address, function_, 0x00, part, EndByte]
  }

  /** The general status command of an address. */
  function GeneralCommand(address: byte): (c: seq<byte>)
    ensures ParseFrame(c) == Some((address, GeneralFunction, Trailer(address)))
  {
    Frame(address, GeneralFunction, Trailer(address))
  }

  /** The hardware version command of an address; its fifth byte is always 0xFC. */
  function HardwareVersionCommand(address: byte): (c: seq<byte>)
    ensures ParseFrame(c) == Some((address, HardwareVersionFunction, 0xFC))
  {
    Frame(address, HardwareVersionFunction, 0xFC)
  }

  /** The firmware version command of an address. */
  function FirmwareVersionCommand(address: byte): (c: seq<byte>)
    ensures ParseFrame(c) == Some((address, FirmwareVersionFunction, Trailer(address)))
  {
    Frame(address, FirmwareVersionFunction, Trailer(address))
  }

  /** Reads the address, function code and fifth byte back out of a six-byte frame. */
  function ParseFrame(f: seq<byte>): Option<(byte, byte, byte)> {
    if |f| == 6 && f[0] == StartByte && f[3] == 0x00 && f[5] == EndByte
    then Some((f[1], f[2], f[4]))
    else None
  }

  /** Every frame reads back as the address, function code and part it was built from. */
  lemma ParseFrameInverts(address: byte, function_: byte, part: byte)
    ensures ParseFrame(Frame(address, function_, part)) == Some((address, function_, part))
  {
  }

  /** The three commands of one address are six-byte frames carrying that address,
      they differ in their function codes, and so the transport is never sent
      the same bytes for two different queries. */
  lemma CommandsOfAddress(address: byte)
    ensures ParseFrame(GeneralCommand(address)) == Some((address, GeneralFunction, Trailer(address)))
    ensures ParseFrame(HardwareVersionCommand(address)) == Some((address, HardwareVersionFunction, 0xFC))
    ensures ParseFrame(FirmwareVersionCommand(address)) == Some((address, FirmwareVersionFunction, Trailer(address)))
    ensures GeneralCommand(address) != HardwareVersionCommand(address)
    ensures GeneralCommand(address) != FirmwareVersionCommand(address)
    ensures HardwareVersionCommand(address) != FirmwareVersionCommand(address)
  {
    ParseFrameInverts(address, GeneralFunction, Trailer(address));
    ParseFrameInverts(address, HardwareVersionFunction, 0xFC);
    ParseFrameInverts(address, FirmwareVersionFunction, Trailer(address));
  }

  /** The firmware command is the general command with the function code swapped. */
  lemma FirmwareIsGeneralWithOtherFunction(address: byte)
    ensures FirmwareVersionCommand(address) == GeneralCommand(address)[2 := FirmwareVersionFunction]
  {
  }

  /** The frames listed in the driver's documentation for addresses 0x00 to 0x0F. */
  const DocumentedFrames: seq<seq<byte>> := [
    [0x7E, 0x01, 0x01, 0x00, 0x00, 0x0D],
    [0x7E, 0x01, 0x01, 0x00, 0xFE, 0x0D],
    [0x7E, 0x02, 0x01, 0x00, 0xFC, 0x0D],
    [0x7E, 0x03, 0x01, 0x00, 0xFE, 0x0D],
    [0x7E, 0x04, 0x01, 0x00, 0xF8, 0x0D],
    [0x7E, 0x05, 0x01, 0x00, 0xFE, 0x0D],
    [0x7E, 0x06, 0x01, 0x00, 0xFC, 0x0D],
    [0x7E, 0x07, 0x01, 0x00, 0xFE, 0x0D],
    [0x7E, 0x08, 0x01, 0x00, 0xF0, 0x0D],
    [0x7E, 0x09, 0x01, 0x00, 0xFE, 0x0D],
    [0x7E, 0x0A, 0x01, 0x00, 0xFC, 0x0D],
    [0x7E, 0x0B, 0x01, 0x00, 0xFE, 0x0D],
    [0x7E, 0x0C, 0x01, 0x00, 0xF8, 0x0D],
    [0x7E, 0x0D, 0x01, 0x00, 0xFE, 0x0D],
    [0x7E, 0x0E, 0x01, 0x00, 0xFC, 0x0D],
    [0x7E, 0x0D, 0x01, 0x00, 0xFE, 0x0D]
  ]

  /** The built general command agrees with the documented one for every address up
      to 0x0F, except the address byte of the rows for 0x00 and 0x0F, which the
      documentation gives as 0x01 and 0x0D. */
  lemma GeneralCommandMatchesDocumentation(address: byte)
    requires address < 0x10
    ensures var documented := DocumentedFrames[address];
      GeneralCommand(address)[1 := 0] == documented[1 := 0] &&
      (GeneralCommand(address) == documented <==> address != 0x00 && address != 0x0F)
  {
  }

  /** Only even addresses from 0x00 to 0x0E have a trailer other than 0xFE. */
  lemma TrailerDefault(address: byte)
    requires address % 2 == 1 || address > 0x0E
    ensures Trailer(address) == 0xFE
  {
  }
}
