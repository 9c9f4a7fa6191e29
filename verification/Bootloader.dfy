// The device side of the flasher: an STM32 system bootloader on the USART, as ST application
// note AN3155 describes it (sections 3.1-3.8), one received byte at a time.
module Bootloader {
  import opened Octets

  const SYNC: byte := 0x7f
  const ACK: byte := 0x79
  const NACK: byte := 0x1f
  const ERASED: byte := 0xff
  const FLASH_BASE: int := 0x0800_0000

  datatype Mode =
    | InReset
    | Application
    | AwaitSync
    | Idle
    | Complement(code: byte)
    | WriteAddress(got: seq<byte>)
    | WriteData(offset: nat, got: seq<byte>)
    | ReadAddress(got: seq<byte>)
    | ReadLength(offset: nat, got: seq<byte>)
    | EraseParams(got: seq<byte>)
    | ExtEraseParams(got: seq<byte>)

  // `extended` says which of the two exclusive erase commands the device has; `bad` are the
  // offsets of the 256-byte pages it fails to program; `tx` is what it has sent and the host
  // has not read yet.
  datatype Device = Device(mode: Mode, flash: seq<byte>, bad: set<nat>, extended: bool, boot0: bool,
                           commands: seq<byte>, version: seq<byte>, id: seq<byte>, tx: seq<byte>)

  function Xor(s: seq<byte>): byte {
    if s == [] then 0 else Xor(s[..|s| - 1]) ^ s[|s| - 1]
  }

  // Four bytes, most significant first
  function Address(b: seq<byte>): (a: nat)
    requires |b| >= 4
  {
    0x100_0000 * (b[0] as int) + 0x1_0000 * (b[1] as int) + 0x100 * (b[2] as int) + b[3] as int
  }

  function Blank(n: nat): (s: seq<byte>)
    ensures |s| == n && forall i | 0 <= i < n :: s[i] == ERASED
  {
    seq(n, _ => ERASED)
  }

  // Programming can only clear bits.
  function Program(flash: seq<byte>, offset: nat, data: seq<byte>): (r: seq<byte>)
    requires offset + |data| <= |flash|
    ensures |r| == |flash|
  {
    seq(|flash|, i requires 0 <= i < |flash| =>
      if offset <= i < offset + |data| then flash[i] & data[i - offset] else flash[i])
  }

  function Respond(d: Device, mode: Mode, answer: seq<byte>): Device {
    d.(mode := mode, tx := d.tx + answer)
  }

  function RunCommand(d: Device, code: byte): Device {
    if code == 0x00 then Respond(d, Idle, [ACK] + d.commands + [ACK])
    else if code == 0x01 then Respond(d, Idle, [ACK] + d.version + [ACK])
    else if code == 0x02 then Respond(d, Idle, [ACK] + d.id + [ACK])
    else if code == 0x11 then Respond(d, ReadAddress([]), [ACK])
    else if code == 0x31 then Respond(d, WriteAddress([]), [ACK])
    else if code == 0x43 && !d.extended then Respond(d, EraseParams([]), [ACK])
    else if code == 0x44 && d.extended then Respond(d, ExtEraseParams([]), [ACK])
    else Respond(d, Idle, [NACK])
  }

  // An address and its checksum; valid addresses lie in the flash.
  predicate ValidAddress(d: Device, got: seq<byte>)
    requires |got| == 5
  {
    Xor(got) == 0 && FLASH_BASE <= Address(got) < FLASH_BASE + |d.flash|
  }

  // N, N+1 data bytes and a checksum for the given offset
  predicate Programs(d: Device, offset: nat, got: seq<byte>)
    requires |got| >= 3
  {
    Xor(got) == 0 && offset + (|got| - 2) <= |d.flash| && offset !in d.bad
  }

  // The device after one more byte from the host.
  function Receive(d: Device, b: byte): Device {
    match d.mode
    case InReset => d
    case Application => d
    case AwaitSync => if b == SYNC then Respond(d, Idle, [ACK]) else d
    case Idle => d.(mode := Complement(b))
    case Complement(code) => if code ^ b == 0xff then RunCommand(d, code) else Respond(d, Idle, [NACK])
    case WriteAddress(got) =>
      var all := got + [b];
      if |all| < 5 then d.(mode := WriteAddress(all))
      else if |all| == 5 && ValidAddress(d, all) then Respond(d, WriteData(Address(all) - FLASH_BASE, []), [ACK])
      else Respond(d, Idle, [NACK])
    case WriteData(offset, got) =>
      var all := got + [b];
      if |all| < all[0] as int + 3 then d.(mode := WriteData(offset, all))
      else if |all| == all[0] as int + 3 && Programs(d, offset, all) then
        Respond(d.(flash := Program(d.flash, offset, all[1..|all| - 1])), Idle, [ACK])
      else Respond(d, Idle, [NACK])
    case ReadAddress(got) =>
      var all := got + [b];
      if |all| < 5 then d.(mode := ReadAddress(all))
      else if |all| == 5 && ValidAddress(d, all) then Respond(d, ReadLength(Address(all) - FLASH_BASE, []), [ACK])
      else Respond(d, Idle, [NACK])
    case ReadLength(offset, got) =>
      if got == [] then d.(mode := ReadLength(offset, [b]))
      else
        var n := got[0] as int + 1;
        if got[0] ^ b == 0xff && offset + n <= |d.flash| then Respond(d, Idle, [ACK] + d.flash[offset..offset + n])
        else Respond(d, Idle, [NACK])
    case EraseParams(got) =>
      if got == [] then d.(mode := EraseParams([b]))
      else if got == [0xff] && b == 0x00 then Respond(d.(flash := Blank(|d.flash|)), Idle, [ACK])
      else Respond(d, Idle, [NACK])
    case ExtEraseParams(got) =>
      if |got| < 2 then d.(mode := ExtEraseParams(got + [b]))
      else if got == [0xff, 0xff] && b == 0x00 then Respond(d.(flash := Blank(|d.flash|)), Idle, [ACK])
      else Respond(d, Idle, [NACK])
  }

  function Feed(d: Device, bytes: seq<byte>): Device {
    if bytes == [] then d else Receive(Feed(d, bytes[..|bytes| - 1]), bytes[|bytes| - 1])
  }

  // The RESET pin: low holds the device, whatever it was doing; the rising edge starts the
  // bootloader or the application, by BOOT0.
  function OnReset(d: Device, level: bool): Device {
    if !level then d.(mode := InReset)
    else if d.mode == InReset then d.(mode := if d.boot0 then AwaitSync else Application)
    else d
  }
}
