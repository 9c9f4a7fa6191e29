// The host side: stm_pro_mode.c and stm_flash.c against the bootloader of module Bootloader.
module Flasher {
  import opened Octets
  import opened Bootloader

  const SERIAL_TIMEOUT: nat := 150000000

  // A device whose answers have the lengths stm_pro_mode.c waits for
  ghost predicate Conforming(d: Device) {
    && |d.commands| == 13 && |d.version| == 3 && |d.id| == 3
    && |d.flash| % 256 == 0 && FLASH_BASE + |d.flash| <= 0x1_0000_0000
  }

  // Waiting for a command, everything it sent already read
  ghost predicate Ready(d: Device) {
    d.mode == Idle && d.tx == []
  }

  lemma {:induction false} FeedConcat(d: Device, a: seq<byte>, b: seq<byte>)
    ensures Feed(d, a + b) == Feed(Feed(d, a), b)
  {
    hide Receive;
    if b == [] {
      assert a + b == a;
    } else {
      var n := |b| - 1;
      assert (a + b)[..|a + b| - 1] == a + b[..n];
      FeedConcat(d, a, b[..n]);
    }
  }

  lemma FeedOne(d: Device, a: seq<byte>, b: byte)
    ensures Feed(d, a + [b]) == Receive(Feed(d, a), b)
  {
    hide Receive;
    assert (a + [b])[..|a|] == a;
  }

  // ---- Addresses --------------------------------------------------------------

  lemma IncrementByte(x: byte)
    ensures x != 0xff ==> x as int < 255 && (x + 1) as int == x as int + 1 && x + 1 != 0
    ensures x == 0xff ==> x as int == 255 && x + 1 == 0
  {
  }

  // incrementLoadAddress: add one to the third byte, carrying into the two above it
  method IncrementLoadAddress(a: array<byte>)
    requires a.Length == 4
    modifies a
    ensures a[..] == NextAddress(old(a[..]))
  {
    a[2] := a[2] + 1;
    if a[2] == 0 {
      a[1] := a[1] + 1;
      if a[1] == 0 {
        a[0] := a[0] + 1;
      }
    }
  }

  function NextAddress(a: seq<byte>): (r: seq<byte>)
    requires |a| == 4
    ensures |r| == 4
  {
    if a[2] != 0xff then [a[0], a[1], a[2] + 1, a[3]]
    else if a[1] != 0xff then [a[0], a[1] + 1, 0, a[3]]
    else [a[0] + 1, 0, 0, a[3]]
  }

  const WORD: nat := 0x1_0000_0000

  lemma AddressBound(a: seq<byte>)
    requires |a| == 4
    ensures Address(a) < WORD
  {
  }

  lemma NextAddressAdds(a: seq<byte>)
    requires |a| == 4
    ensures Address(NextAddress(a)) == if Address(a) + 256 < WORD then Address(a) + 256 else Address(a) + 256 - WORD
  {
    if a[2] != 0xff {
      CarryNone(a, NextAddress(a));
    } else if a[1] != 0xff {
      CarryOne(a, NextAddress(a));
    } else {
      CarryTwo(a, NextAddress(a));
    }
  }

  lemma CarryNone(a: seq<byte>, r: seq<byte>)
    requires |a| == 4 && a[2] != 0xff && r == [a[0], a[1], a[2] + 1, a[3]]
    ensures Address(r) == Address(a) + 256 < WORD
  {
    IncrementByte(a[2]);
    AddressParts(a, a[0] as int, a[1] as int, a[2] as int, a[3] as int);
  }

  lemma CarryOne(a: seq<byte>, r: seq<byte>)
    requires |a| == 4 && a[2] == 0xff && a[1] != 0xff && r == [a[0], a[1] + 1, 0, a[3]]
    ensures Address(r) == Address(a) + 256 < WORD
  {
    IncrementByte(a[1]);
    IncrementByte(a[2]);
    AddressParts(a, a[0] as int, a[1] as int, 255, a[3] as int);
  }

  lemma CarryTwo(a: seq<byte>, r: seq<byte>)
    requires |a| == 4 && a[2] == 0xff && a[1] == 0xff && r == [a[0] + 1, 0, 0, a[3]]
    ensures Address(r) == if Address(a) + 256 < WORD then Address(a) + 256 else Address(a) + 256 - WORD
  {
    IncrementByte(a[0]);
    IncrementByte(a[1]);
    AddressParts(a, a[0] as int, 255, 255, a[3] as int);
  }

  lemma AddressParts(a: seq<byte>, b0: int, b1: int, b2: int, b3: int)
    requires |a| == 4 && a[0] as int == b0 && a[1] as int == b1 && a[2] as int == b2 && a[3] as int == b3
    ensures Address(a) == 0x100_0000 * b0 + 0x1_0000 * b1 + 0x100 * b2 + b3
    ensures 0 <= b0 < 256 && 0 <= b1 < 256 && 0 <= b2 < 256 && 0 <= b3 < 256
  {
  }

  function AddressAfter(a: seq<byte>, k: nat): (r: seq<byte>)
    requires |a| == 4
    ensures |r| == 4
  {
    if k == 0 then a else NextAddress(AddressAfter(a, k - 1))
  }

  lemma AddModulo(x: nat, y: nat)
    requires y == x % WORD
    ensures (if y + 256 < WORD then y + 256 else y + 256 - WORD) == (x + 256) % WORD
  {
  }

  // k applications give start + 256k modulo 2^32 and never touch the low byte.
  lemma {:induction false} AddressAfterAdds(a: seq<byte>, k: nat)
    requires |a| == 4
    ensures Address(AddressAfter(a, k)) == (Address(a) + 256 * k) % WORD
    ensures AddressAfter(a, k)[3] == a[3]
  {
    hide Address;
    AddressBound(a);
    if k == 0 {
    } else {
      AddressAfterAdds(a, k - 1);
      NextAddressAdds(AddressAfter(a, k - 1));
      AddModulo(Address(a) + 256 * (k - 1), Address(AddressAfter(a, k - 1)));
    }
  }

  lemma ModuloApart(x: nat, j: nat, k: nat)
    requires j < k < 0x100_0000
    ensures var p, q := (x + 256 * j) % WORD, (x + 256 * k) % WORD;
            p - q >= 256 || q - p >= 256
  {
    var p, q := (x + 256 * j) % WORD, (x + 256 * k) % WORD;
    var m := (x + 256 * k) / WORD - (x + 256 * j) / WORD;
    assert q - p == 256 * (k - j) - WORD * m;
    assert WORD == 256 * 0x100_0000;
    assert q - p == 256 * (k - j - 0x100_0000 * m);
    if m <= 0 {
      assert k - j - 0x100_0000 * m >= 1;
    } else {
      assert k - j - 0x100_0000 * m <= -1;
    }
  }

  // So the pages written for different block numbers below 2^24 never overlap.
  lemma PagesDisjoint(a: seq<byte>, j: nat, k: nat)
    requires |a| == 4 && j < k < 0x100_0000
    ensures var p, q := Address(AddressAfter(a, j)), Address(AddressAfter(a, k));
            p - q >= 256 || q - p >= 256
  {
    hide Address, AddressAfter;
    AddressAfterAdds(a, j);
    AddressAfterAdds(a, k);
    ModuloApart(Address(a), j, k);
  }

  // ---- Frames ------------------------------------------------------------------

  lemma Feed2(d: Device, a: byte, b: byte)
    ensures Feed(d, [a, b]) == Receive(Receive(d, a), b)
  {
    hide Receive;
    FeedOne(d, [], a);
    FeedOne(d, [a], b);
    assert [] + [a] == [a] && [a] + [b] == [a, b];
  }

  lemma Feed3(d: Device, a: byte, b: byte, c: byte)
    ensures Feed(d, [a, b, c]) == Receive(Receive(Receive(d, a), b), c)
  {
    hide Receive;
    Feed2(d, a, b);
    FeedOne(d, [a, b], c);
    assert [a, b] + [c] == [a, b, c];
  }

  lemma Feed5(d: Device, a: byte, b: byte, c: byte, x: byte, y: byte)
    ensures Feed(d, [a, b, c, x, y]) == Receive(Receive(Receive(Receive(Receive(d, a), b), c), x), y)
  {
    hide Receive, Feed;
    Feed3(d, a, b, c);
    FeedOne(d, [a, b, c], x);
    assert [a, b, c] + [x] == [a, b, c, x];
    FeedOne(d, [a, b, c, x], y);
    assert [a, b, c, x] + [y] == [a, b, c, x, y];
  }

  // A command byte and its complement
  lemma CommandRuns(d: Device, code: byte, complement: byte)
    requires d.mode == Idle && code ^ complement == 0xff
    ensures Feed(d, [code, complement]) == RunCommand(d, code)
  {
    hide Feed, RunCommand, Receive;
    Feed2(d, code, complement);
    CommandByte(d, code);
    ComplementByte(d.(mode := Complement(code)), code, complement);
    CommandByCode(d, Complement(code), code);
  }

  lemma CommandByte(d: Device, code: byte)
    requires d.mode == Idle
    ensures Receive(d, code) == d.(mode := Complement(code))
  {
    hide RunCommand, ValidAddress, Programs, Xor, Address, Program;
  }

  lemma ComplementByte(d: Device, code: byte, complement: byte)
    requires d.mode == Complement(code) && code ^ complement == 0xff
    ensures Receive(d, complement) == RunCommand(d, code)
  {
    hide RunCommand, ValidAddress, Programs, Xor, Address, Program;
  }

  // What a command does depends on nothing the device was doing.
  lemma CommandByCode(d: Device, mode: Mode, code: byte)
    ensures RunCommand(d.(mode := mode), code) == RunCommand(d, code)
  {
  }

  // The operands of the two erase commands, for the whole flash
  lemma EraseTaken(d: Device)
    requires d.mode == EraseParams([])
    ensures Feed(d, [0xff, 0x00]) == Respond(d.(flash := Blank(|d.flash|)), Idle, [ACK])
  {
    hide Feed, RunCommand, ValidAddress, Programs, Xor, Address, Program;
    Feed2(d, 0xff, 0x00);
  }

  lemma ExtEraseTaken(d: Device)
    requires d.mode == ExtEraseParams([])
    ensures Feed(d, [0xff, 0xff, 0x00]) == Respond(d.(flash := Blank(|d.flash|)), Idle, [ACK])
  {
    hide Feed, RunCommand, ValidAddress, Programs, Xor, Address, Program;
    Feed3(d, 0xff, 0xff, 0x00);
  }

  // The five bytes loadAddress sends, and what they XOR to
  function AddressFrame(a: seq<byte>): (f: seq<byte>)
    requires |a| == 4
    ensures |f| == 5
  {
    a + [a[0] ^ a[1] ^ a[2] ^ a[3]]
  }

  lemma XorOne(s: seq<byte>, x: byte)
    ensures Xor(s + [x]) == Xor(s) ^ x
  {
    assert (s + [x])[..|s|] == s;
  }

  lemma Xor4(a: seq<byte>)
    requires |a| == 4
    ensures Xor(a) == a[0] ^ a[1] ^ a[2] ^ a[3]
  {
    hide Xor;
    assert Xor([]) == 0 by { XorNothing(); }
    XorOne([], a[0]);
    XorOne([] + [a[0]], a[1]);
    XorOne([] + [a[0]] + [a[1]], a[2]);
    XorOne([] + [a[0]] + [a[1]] + [a[2]], a[3]);
    assert [] + [a[0]] + [a[1]] + [a[2]] + [a[3]] == a;
  }

  lemma XorNothing()
    ensures Xor([]) == 0
  {
  }

  lemma XorSingle(x: byte)
    ensures Xor([x]) == x
  {
    XorOne([], x);
    assert [] + [x] == [x];
  }

  // Every frame followed by the XOR of its bytes XORs to zero.
  lemma ChecksumCancels(s: seq<byte>)
    ensures Xor(s + [Xor(s)]) == 0
  {
    assert (s + [Xor(s)])[..|s|] == s;
  }

  lemma AddressFrameCancels(a: seq<byte>)
    requires |a| == 4
    ensures Xor(AddressFrame(a)) == 0 && Address(AddressFrame(a)) == Address(a)
  {
    Xor4(a);
    ChecksumCancels(a);
  }

  predicate InFlash(d: Device, a: seq<byte>)
    requires |a| == 4
  {
    FLASH_BASE <= Address(a) < FLASH_BASE + |d.flash|
  }

  function Offset(a: seq<byte>): nat
    requires |a| == 4
  {
    if Address(a) >= FLASH_BASE then Address(a) - FLASH_BASE else 0
  }

  // What the device makes of the address frame after a write or a read command
  function AddressTaken(d: Device, a: seq<byte>, next: Mode): Device
    requires |a| == 4
  {
    if InFlash(d, a) then Respond(d, next, [ACK]) else Respond(d, Idle, [NACK])
  }

  lemma WriteAddressByte(d: Device, got: seq<byte>, b: byte)
    requires d.mode == WriteAddress(got) && |got| < 4
    ensures Receive(d, b) == d.(mode := WriteAddress(got + [b]))
  {
    hide Xor;
  }

  lemma WriteAddressEnd(d: Device, got: seq<byte>, b: byte)
    requires d.mode == WriteAddress(got) && |got| == 4
    ensures Receive(d, b) ==
            if ValidAddress(d, got + [b]) then Respond(d, WriteData(Address(got + [b]) - FLASH_BASE, []), [ACK])
            else Respond(d, Idle, [NACK])
  {
    hide Xor, Address;
  }

  lemma WriteAddressTaken(d: Device, a: seq<byte>)
    requires d.mode == WriteAddress([]) && |a| == 4
    ensures Feed(d, AddressFrame(a)) == AddressTaken(d, a, WriteData(Offset(a), []))
  {
    hide Address, Xor, Feed, Receive;
    var f := AddressFrame(a);
    CollectFive(f);
    Feed5(d, f[0], f[1], f[2], f[3], f[4]);
    var s1 := [] + [f[0]];
    var s2 := s1 + [f[1]];
    var s3 := s2 + [f[2]];
    var s4 := s3 + [f[3]];
    WriteAddressByte(d, [], f[0]);
    WriteAddressByte(d.(mode := WriteAddress(s1)), s1, f[1]);
    WriteAddressByte(d.(mode := WriteAddress(s2)), s2, f[2]);
    WriteAddressByte(d.(mode := WriteAddress(s3)), s3, f[3]);
    WriteAddressEnd(d.(mode := WriteAddress(s4)), s4, f[4]);
    AddressFrameCancels(a);
  }

  lemma ReadAddressByte(d: Device, got: seq<byte>, b: byte)
    requires d.mode == ReadAddress(got) && |got| < 4
    ensures Receive(d, b) == d.(mode := ReadAddress(got + [b]))
  {
    hide Xor;
  }

  lemma ReadAddressEnd(d: Device, got: seq<byte>, b: byte)
    requires d.mode == ReadAddress(got) && |got| == 4
    ensures Receive(d, b) ==
            if ValidAddress(d, got + [b]) then Respond(d, ReadLength(Address(got + [b]) - FLASH_BASE, []), [ACK])
            else Respond(d, Idle, [NACK])
  {
    hide Xor, Address;
  }

  lemma ReadAddressTaken(d: Device, a: seq<byte>)
    requires d.mode == ReadAddress([]) && |a| == 4
    ensures Feed(d, AddressFrame(a)) == AddressTaken(d, a, ReadLength(Offset(a), []))
  {
    hide Address, Xor, Feed, Receive;
    var f := AddressFrame(a);
    CollectFive(f);
    Feed5(d, f[0], f[1], f[2], f[3], f[4]);
    var s1 := [] + [f[0]];
    var s2 := s1 + [f[1]];
    var s3 := s2 + [f[2]];
    var s4 := s3 + [f[3]];
    ReadAddressByte(d, [], f[0]);
    ReadAddressByte(d.(mode := ReadAddress(s1)), s1, f[1]);
    ReadAddressByte(d.(mode := ReadAddress(s2)), s2, f[2]);
    ReadAddressByte(d.(mode := ReadAddress(s3)), s3, f[3]);
    ReadAddressEnd(d.(mode := ReadAddress(s4)), s4, f[4]);
    AddressFrameCancels(a);
  }

  lemma CollectFive(f: seq<byte>)
    requires |f| == 5
    ensures [] + [f[0]] + [f[1]] + [f[2]] + [f[3]] + [f[4]] == f == [f[0], f[1], f[2], f[3], f[4]]
  {
  }

  // N, the page and the checksum: the bytes flashPage streams
  function PageFrame(page: seq<byte>): seq<byte> {
    [0xff] + page + [Xor([0xff] + page)]
  }

  lemma {:induction false} CollectPage(d: Device, offset: nat, s: seq<byte>)
    requires d.mode == WriteData(offset, []) && |s| <= 257 && (s != [] ==> s[0] == 0xff)
    ensures Feed(d, s) == d.(mode := WriteData(offset, s))
  {
    if s == [] {
    } else {
      var n := |s| - 1;
      CollectPage(d, offset, s[..n]);
      assert s[..n] + [s[n]] == s;
      assert n > 0 ==> s[..n][0] == 0xff;
    }
  }

  // The device can program 256 bytes at the offset.
  predicate Programmable(d: Device, offset: nat) {
    offset + 256 <= |d.flash| && offset !in d.bad
  }

  // What the device makes of a page for an address it accepted
  function PageTaken(d: Device, offset: nat, page: seq<byte>): Device
    requires |page| == 256
  {
    if Programmable(d, offset) then Respond(d.(flash := Program(d.flash, offset, page)), Idle, [ACK])
    else Respond(d, Idle, [NACK])
  }

  lemma PageFrameTaken(d: Device, offset: nat, page: seq<byte>)
    requires d.mode == WriteData(offset, []) && |page| == 256
    ensures Feed(d, PageFrame(page)) == PageTaken(d, offset, page)
  {
    hide Program, Xor, Feed;
    var s := [0xff] + page;
    CollectPage(d, offset, s);
    FeedOne(d, s, Xor(s));
    ChecksumCancels(s);
    var all := s + [Xor(s)];
    assert all[1..|all| - 1] == page && all[0] == 0xff;
  }

  // A page that the device does not expect: its bytes are taken for commands and their operands,
  // and whatever they do, the first answer is a refusal.
  lemma PageUnexpected(d: Device, page: seq<byte>)
    requires Ready(d) && |page| == 256
    ensures var t := Feed(d, PageFrame(page)).tx;
            |t| > 0 && t[0] == NACK
  {
    hide Feed, Xor;
    var rest := page[1..] + [Xor([0xff] + page)];
    assert PageFrame(page) == [0xff, page[0]] + rest;
    FeedConcat(d, [0xff, page[0]], rest);
    Feed2(d, 0xff, page[0]);
    AnswersKept(Feed(d, [0xff, page[0]]), rest);
  }

  // What the device has answered stays until the host reads it.
  lemma {:induction false} AnswersKept(d: Device, bytes: seq<byte>)
    ensures d.tx <= Feed(d, bytes).tx
  {
    hide Receive;
    if bytes == [] {
    } else {
      var n := |bytes| - 1;
      AnswersKept(d, bytes[..n]);
      AnswerKept(Feed(d, bytes[..n]), bytes[n]);
    }
  }

  lemma AnswerKept(d: Device, b: byte)
    ensures d.tx <= Receive(d, b).tx
  {
    hide Xor, Program, Address, RunCommand, ValidAddress, Programs;
    if d.mode.Complement? { CommandAnswers(d, d.mode.code); }
  }

  lemma CommandAnswers(d: Device, code: byte)
    ensures d.tx <= RunCommand(d, code).tx
  {
  }

  // The read request for an address the device accepted
  lemma ReadLengthTaken(d: Device, offset: nat)
    requires d.mode == ReadLength(offset, [])
    ensures Feed(d, [0xff, 0x00]) ==
            if offset + 256 <= |d.flash| then Respond(d, Idle, [ACK] + d.flash[offset..offset + 256])
            else Respond(d, Idle, [NACK])
  {
    Feed2(d, 0xff, 0x00);
  }

  // The device after a read command and an address
  function ReadAsked(d: Device, a: seq<byte>): Device
    requires |a| == 4
  {
    if InFlash(d, a) then d.(mode := ReadLength(Offset(a), [])) else d
  }

  // What it answers to the length: the page, or a refusal where its flash has none
  function PageAnswer(d: Device, a: seq<byte>): seq<byte>
    requires |a| == 4
  {
    if InFlash(d, a) && Offset(a) + 256 <= |d.flash| then [ACK] + d.flash[Offset(a)..Offset(a) + 256] else [NACK]
  }

  lemma ReadAnswered(d: Device, a: seq<byte>)
    requires Ready(d) && |a| == 4
    ensures Feed(ReadAsked(d, a), [0xff, 0x00]) == d.(tx := PageAnswer(d, a))
  {
    hide Feed, Receive, Address;
    if InFlash(d, a) {
      ReadLengthTaken(ReadAsked(d, a), Offset(a));
    } else {
      CommandRuns(d, 0xff, 0x00);
    }
  }
}
