// stm_pro_mode.c and stm_flash.c as methods of the host's end of the serial link.
module FlashTasks {
  import opened Octets
  import opened Bootloader
  import opened Flasher
  import opened FlashImage
  import opened Overlong

  // ---- The serial link ------------------------------------------------------------

  // uart_get_buffered_data_len reaching `count`, and everything buffered being read
  function Heard(d: Device, count: nat): Device {
    if |d.tx| >= count then d.(tx := []) else d
  }

  predicate Acked(d: Device, count: nat) {
    |d.tx| >= count && |d.tx| > 0 && d.tx[0] == ACK
  }

  function WaitedFrom(count: nat, timeout: nat, buffered: nat -> nat, t: nat): nat
    decreases timeout - t
  {
    if t >= timeout then 0
    else if buffered(t) >= count then buffered(t)
    else WaitedFrom(count, timeout, buffered, t + 1)
  }

  // The first of the polls before the timeout that finds `count` bytes, by what it finds
  function Waited(count: nat, timeout: nat, buffered: nat -> nat): nat {
    WaitedFrom(count, timeout, buffered, 0)
  }

  lemma {:induction false} WaitedFromMeans(count: nat, timeout: nat, buffered: nat -> nat, t: nat) returns (p: nat)
    requires t <= timeout
    ensures t <= p <= timeout && forall u | t <= u < p :: buffered(u) < count
    ensures p < timeout ==> WaitedFrom(count, timeout, buffered, t) == buffered(p) >= count
    ensures p == timeout ==> WaitedFrom(count, timeout, buffered, t) == 0
    decreases timeout - t
  {
    if t == timeout || buffered(t) >= count {
      return t;
    } else {
      p := WaitedFromMeans(count, timeout, buffered, t + 1);
    }
  }

  // How fast an answer arrives does not matter as long as no fewer bytes are waited for than it
  // has: if it is complete before the timeout, the result is that of an answer there at once.
  lemma PaceDoesNotMatter(count: nat, timeout: nat, buffered: nat -> nat, n: nat, done: nat)
    requires 0 < n <= count && done < timeout
    requires (forall t :: buffered(t) <= n) && (forall t | t >= done :: buffered(t) == n)
    ensures Waited(count, timeout, buffered) == if n == count then n else 0
    ensures Waited(count, timeout, buffered) == Waited(count, timeout, _ => n)
  {
    var p := WaitedFromMeans(count, timeout, buffered, 0);
    var q := WaitedFromMeans(count, timeout, _ => n, 0);
    assert buffered(done) == n;
  }

  // An answer that is there at once
  lemma WaitedAtOnce(count: nat, timeout: nat, n: nat)
    requires 0 < timeout
    ensures Waited(count, timeout, _ => n) == if n >= count then n else 0
  {
    var p := WaitedFromMeans(count, timeout, _ => n, 0);
  }

  lemma PageAnswerMeans(d: Device, a: seq<byte>)
    requires |a| == 4
    ensures var t := PageAnswer(d, a);
            && (|t| == 257 || |t| == 1)
            && (|t| == 257 <==> InFlash(d, a) && Offset(a) + 256 <= |d.flash|)
            && (|t| == 257 ==> t[0] == ACK && t == [ACK] + d.flash[Offset(a)..Offset(a) + 256])
            && (|t| == 1 ==> t == [NACK])
  {
    hide InFlash, Offset;
  }

  class Link {
    var dev: Device
    var resetPin: bool

    // Wired to a device that may have sent anything and be in any mode
    constructor (d: Device)
      ensures dev == d
    {
      dev, resetPin := d, true;
    }

    method SendData(bytes: seq<byte>)
      modifies this`dev
      ensures dev == Feed(old(dev), bytes)
    {
      hide Receive, Feed;
      assert Feed(dev, bytes[..0]) == dev by { FeedNothing(dev); }
      for i := 0 to |bytes|
        invariant dev == Feed(old(dev), bytes[..i])
      {
        assert bytes[..i + 1] == bytes[..i] + [bytes[i]];
        FeedOne(old(dev), bytes[..i], bytes[i]);
        dev := Receive(dev, bytes[i]);
      }
      assert bytes[..|bytes|] == bytes;
    }

    // Polls until `count` bytes are buffered, and returns what is then there; 0 at the timeout.
    // `buffered(t)` is what the t-th poll finds.
    method WaitForSerialData(count: nat, timeout: nat, buffered: nat -> nat) returns (length: nat)
      ensures length == Waited(count, timeout, buffered)
    {
      var timer := 0;
      while timer < timeout
        invariant timer <= timeout && WaitedFrom(count, timeout, buffered, timer) == Waited(count, timeout, buffered)
      {
        length := buffered(timer);
        if length >= count {
          return;
        }
        timer := timer + 1;
      }
      length := 0;
    }

    // waitForSerialData on this device, which answers at once
    method Await(count: nat) returns (length: nat)
      ensures length == if |dev.tx| >= count then |dev.tx| else 0
    {
      var n := |dev.tx|;
      WaitedAtOnce(count, SERIAL_TIMEOUT, n);
      length := WaitForSerialData(count, SERIAL_TIMEOUT, _ => n);
    }

    method ReadBytes(length: nat) returns (data: seq<byte>)
      requires length <= |dev.tx|
      modifies this`dev
      ensures data == old(dev.tx)[..length] && dev == old(dev).(tx := old(dev.tx)[length..])
    {
      data := dev.tx[..length];
      dev := dev.(tx := dev.tx[length..]);
    }

    // 1 on an acknowledgement, 0 otherwise
    method SendBytes(bytes: seq<byte>, resp: nat) returns (r: nat)
      requires resp > 0
      modifies this`dev
      ensures dev == Heard(Feed(old(dev), bytes), resp)
      ensures r == if Acked(Feed(old(dev), bytes), resp) then 1 else 0
    {
      hide Feed, Receive, Waited;
      SendData(bytes);
      var length := Await(resp);
      if length > 0 {
        assert dev.tx[length..] == [];
        var data := ReadBytes(length);
        if data[0] == ACK {
          return 1;
        }
      }
      r := 0;
    }

    // ---- Set-up and end -------------------------------------------------------------

    // gpio_set_level(RESET_PIN, level)
    method SetResetPin(level: bool)
      modifies this
      ensures resetPin == level && dev == OnReset(old(dev), level)
    {
      resetPin, dev := level, OnReset(dev, level);
    }

    // A low pulse restarts the device whatever it was doing, into what BOOT0 selects; nothing else
    // of it changes.
    method ResetSTM()
      modifies this
      ensures dev.mode == if old(dev).boot0 then AwaitSync else Application
      ensures dev == old(dev).(mode := dev.mode) && resetPin
    {
      SetResetPin(false);
      SetResetPin(true);
    }

    // Leaves the device running what is in its flash.
    method EndConn()
      modifies this
      ensures dev == old(dev).(boot0 := false, mode := Application) && resetPin
    {
      SetResetPin(false);
      dev := dev.(boot0 := false);
      ResetSTM();
    }

    // cmdErase and cmdExtErase, on a device that has only one of the two
    method CmdErase() returns (r: nat)
      requires Ready(dev)
      modifies this`dev
      ensures dev == if old(dev).extended then old(dev) else old(dev).(flash := Blank(|old(dev).flash|))
      ensures r == if old(dev).extended then 0 else 1
    {
      hide Feed, Receive;
      CommandRuns(dev, 0x43, 0xbc);
      var a := SendBytes([0x43, 0xbc], 1);
      if a == 1 {
        EraseTaken(dev);
        r := SendBytes([0xff, 0x00], 1);
      } else {
        r := 0;
      }
    }

    method CmdExtErase() returns (r: nat)
      requires Ready(dev)
      modifies this`dev
      ensures dev == if old(dev).extended then old(dev).(flash := Blank(|old(dev).flash|)) else old(dev)
      ensures r == if old(dev).extended then 1 else 0
    {
      hide Feed, Receive;
      CommandRuns(dev, 0x44, 0xbb);
      var a := SendBytes([0x44, 0xbb], 1);
      if a == 1 {
        ExtEraseTaken(dev);
        r := SendBytes([0xff, 0xff, 0x00], 1);
      } else {
        r := 0;
      }
    }

    // Whatever the device was doing and had sent before, it ends up erased and in step.
    method SetupSTM()
      requires Conforming(dev) && dev.boot0
      modifies this
      ensures dev == old(dev).(mode := Idle, tx := [], flash := Blank(|old(dev).flash|))
    {
      ResetSTM();
      var r := CmdSync();
      r := CmdGet();
      r := CmdVersion();
      r := CmdId();
      r := CmdErase();
      r := CmdExtErase();
    }

    method CmdSync() returns (r: nat)
      requires dev.mode == AwaitSync
      modifies this`dev
      ensures dev == old(dev).(mode := Idle, tx := [])
      ensures r == if (old(dev).tx + [ACK])[0] == ACK then 1 else 0
    {
      FeedOne(dev, [], SYNC);
      assert [] + [SYNC] == [SYNC];
      r := SendBytes([SYNC], 1);
    }

    method CmdGet() returns (r: nat)
      requires Ready(dev) && Conforming(dev)
      modifies this`dev
      ensures dev == old(dev) && r == 1
    {
      hide Feed, Receive;
      CommandRuns(dev, 0x00, 0xff);
      r := SendBytes([0x00, 0xff], 15);
    }

    method CmdVersion() returns (r: nat)
      requires Ready(dev) && Conforming(dev)
      modifies this`dev
      ensures dev == old(dev) && r == 1
    {
      hide Feed, Receive;
      CommandRuns(dev, 0x01, 0xfe);
      r := SendBytes([0x01, 0xfe], 5);
    }

    method CmdId() returns (r: nat)
      requires Ready(dev) && Conforming(dev)
      modifies this`dev
      ensures dev == old(dev) && r == 1
    {
      hide Feed, Receive;
      CommandRuns(dev, 0x02, 0xfd);
      r := SendBytes([0x02, 0xfd], 5);
    }

    // ---- Pages ------------------------------------------------------------------------

    method LoadAddress(a: array<byte>) returns (r: nat)
      requires a.Length == 4
      modifies this`dev
      ensures dev == Heard(Feed(old(dev), AddressFrame(a[..])), 1)
      ensures r == if Acked(Feed(old(dev), AddressFrame(a[..])), 1) then 1 else 0
    {
      hide Feed, Heard, Acked;
      var x := a[0] ^ a[1] ^ a[2] ^ a[3];
      assert AddressFrame(a[..]) == [a[0], a[1], a[2], a[3], x];
      r := SendBytes([a[0], a[1], a[2], a[3], x], 1);
    }

    method CmdWrite() returns (r: nat)
      requires Ready(dev)
      modifies this`dev
      ensures dev == old(dev).(mode := WriteAddress([])) && r == 1
    {
      hide Feed, Receive;
      CommandRuns(dev, 0x31, 0xce);
      r := SendBytes([0x31, 0xce], 1);
    }

    method CmdRead() returns (r: nat)
      requires Ready(dev)
      modifies this`dev
      ensures dev == old(dev).(mode := ReadAddress([])) && r == 1
    {
      hide Feed, Receive;
      CommandRuns(dev, 0x11, 0xee);
      r := SendBytes([0x11, 0xee], 1);
    }

    // The streaming loop: length, data, and the running xor. What went out XORs to zero.
    method StreamPage(block: array<byte>)
      requires block.Length == 256
      modifies this`dev
      ensures dev == Feed(old(dev), PageFrame(block[..]))
      ensures Xor(PageFrame(block[..])) == 0
    {
      hide Feed, Xor;
      ghost var page := block[..];
      var x: byte := 0xff;
      SendData([0xff]);
      XorSingle(0xff);
      ghost var sent: seq<byte> := [0xff];
      for i := 0 to 256
        invariant sent == [0xff] + page[..i] && page == block[..]
        invariant x == Xor(sent) && dev == Feed(old(dev), sent)
      {
        FeedConcat(old(dev), sent, [block[i]]);
        XorOne(sent, block[i]);
        SendData([block[i]]);
        x := x ^ block[i];
        sent := sent + [block[i]];
        assert page[..i + 1] == page[..i] + [block[i]];
      }
      assert page[..256] == page;
      FeedConcat(old(dev), sent, [x]);
      ChecksumCancels(sent);
      SendData([x]);
    }

    // flashPage. For an address in the flash the page is acknowledged and programmed, or refused
    // and nothing changed, and the device waits for the next command. For any other it fails, but
    // the device, having refused the address, takes the bytes of the page for commands.
    method FlashPage(address: array<byte>, block: array<byte>) returns (ok: bool)
      requires Ready(dev) && address.Length == 4 && block.Length == 256
      modifies this`dev
      ensures ok <==> InFlash(old(dev), address[..]) && Programmable(old(dev), Offset(address[..]))
      ensures InFlash(old(dev), address[..]) ==>
                dev == if ok then old(dev).(flash := Program(old(dev).flash, Offset(address[..]), block[..]))
                       else old(dev)
      ensures !InFlash(old(dev), address[..]) ==> dev == Unexpected(old(dev), block[..])
    {
      hide Address, Feed, Receive, RunCommand, Program, PageFrame, AddressFrame, Xor, Offset;
      var r := CmdWrite();
      WriteAddressTaken(dev, address[..]);
      r := LoadAddress(address);
      if InFlash(dev, address[..]) {
        PageFrameTaken(dev, Offset(address[..]), block[..]);
      } else {
        PageUnexpected(dev, block[..]);
      }
      StreamPage(block);
      var length := Await(1);
      if length > 0 {
        var data := ReadBytes(length);
        return data[0] == ACK;
      }
      ok := false;
    }

    // readPage: an ACK and the 256 bytes at the address, or a failure where the flash has none
    method ReadPage(address: array<byte>, block: array<byte>) returns (ok: bool)
      requires Ready(dev) && address.Length == 4 && block.Length == 257
      modifies this`dev, block
      ensures ok <==> InFlash(old(dev), address[..]) && Offset(address[..]) + 256 <= |dev.flash|
      ensures ok ==> block[..] == [ACK] + dev.flash[Offset(address[..])..Offset(address[..]) + 256]
      ensures dev == if ok then old(dev) else old(dev).(tx := [NACK])
    {
      hide Feed, Receive, Xor, AddressFrame, InFlash, Offset, Address, PageAnswer;
      ghost var d := dev;
      AskForPage(address);
      ReadAnswered(d, address[..]);
      SendData([0xff, 0x00]);
      PageAnswerMeans(d, address[..]);
      var length := Await(257);
      if length == 0 {
        return false;
      }
      var data := ReadBytes(length);
      if data[0] != ACK {
        return false;
      }
      CopyInto(block, data);
      ok := true;
    }

    // The read command and the address
    method AskForPage(address: array<byte>)
      requires Ready(dev) && address.Length == 4
      modifies this`dev
      ensures dev == ReadAsked(old(dev), address[..])
    {
      hide Address, Feed, Receive, AddressFrame, Offset;
      var r := CmdRead();
      ReadAddressTaken(dev, address[..]);
      r := LoadAddress(address);
    }

    // ---- Tasks ------------------------------------------------------------------------

    // writeTask. On success the flash is the padded file and erased bytes behind it; where the
    // device fails to program a page it is the pages before that one and erased bytes behind
    // those. A file too long for the flash fails as well, but the device is left as its first
    // page beyond the end leaves it, taken for commands.
    method WriteTask(file: seq<byte>) returns (ok: bool)
      requires Conforming(dev) && dev.boot0
      modifies this
      ensures var n, d := GoodPages(file, old(dev).bad, |old(dev).flash|, 0), old(dev).(mode := Idle, tx := []);
              && (ok <==> n == PageCount(file))
              && dev == Written(d, file, n)
              && (|file| <= |d.flash| + Slack(d) ==> dev.flash == Image(file, n, |d.flash|))
    {
      hide Address, AddressAfter, NextAddress, Image, Padded, Page, GoodPages, Program, BlockLength, PageCount, InFlash,
           Offset, Unexpected, Slack;
      ShortFileWritten(dev.(mode := Idle, tx := []), file);
      var address := StartAddress();
      var block := new byte[256](_ => 0x00);
      SetupSTM();
      ghost var d, size, k := dev, |dev.flash|, 0;
      ImageOfNothing(file, size);
      var pos, n := ReadBlock(file, 0, block, 0);
      while n > 0
        invariant pos == Position(file, k + 1) && n == BlockLength(file, k) && address.Length == 4
        invariant k <= PageCount(file) && (n > 0 <==> k < PageCount(file)) && 256 * k <= size
        invariant n > 0 ==> block[..] == Page(file, k)
        invariant address[..] == AddressAfter(START, k)
        invariant GoodPages(file, d.bad, size, k) == GoodPages(file, d.bad, size, 0)
        invariant dev == d.(flash := Image(file, k, size))
        decreases PageCount(file) - k
      {
        PageAddress(dev, k);
        ok := FlashPage(address, block);
        GoodPagesStep(file, d.bad, size, k);
        if !ok {
          return;
        }
        ProgramExtends(file, k, size);
        AddressStep(k);
        IncrementLoadAddress(address);
        Fill(block);
        k := k + 1;
        pos, n := ReadBlock(file, pos, block, k);
      }
      GoodPagesEnd(file, d.bad, size);
      ok := true;
    }

    // readTask: reads back one page per block of the file. What it read is never compared with
    // the file, so its verdict depends on the number of blocks alone.
    method ReadTask(file: seq<byte>) returns (ok: bool, ghost seen: seq<seq<byte>>)
      requires Ready(dev) && Conforming(dev)
      modifies this`dev
      ensures ok <==> 256 * PageCount(file) <= |dev.flash|
      ensures dev == if ok then old(dev) else old(dev).(tx := [NACK])
      ensures ok ==> |seen| == PageCount(file) &&
                     forall k | 0 <= k < |seen| :: seen[k] == [ACK] + dev.flash[256 * k..256 * k + 256]
    {
      hide Address, AddressAfter, NextAddress, Padded, Page, BlockLength, PageCount, InFlash, Offset;
      var address := StartAddress();
      var block := new byte[257](_ => 0x00);
      seen := [];
      ghost var d, k := dev, 0;
      var pos, n := ReadBlock(file, 0, block, 0);
      while n > 0
        invariant pos == Position(file, k + 1) && n == BlockLength(file, k) && address.Length == 4
        invariant k <= PageCount(file) && (n > 0 <==> k < PageCount(file))
        invariant address[..] == AddressAfter(START, k)
        invariant dev == d && 256 * k <= |d.flash|
        invariant |seen| == k && forall j | 0 <= j < k :: seen[j] == [ACK] + d.flash[256 * j..256 * j + 256]
        decreases PageCount(file) - k
      {
        PageAddress(dev, k);
        ok := ReadPage(address, block);
        if !ok {
          return;
        }
        seen := seen + [block[..]];
        AddressStep(k);
        IncrementLoadAddress(address);
        Fill(block);
        k := k + 1;
        pos, n := ReadBlock(file, pos, block, k);
      }
      ok := true;
    }

    // flashSTM; `found` is whether the file could be opened. Success means that the file fits, is
    // in the flash, and that the read-back showed exactly the pages written; in every case the
    // device is left running its application.
    method FlashSTM(found: bool, file: seq<byte>) returns (ok: bool, ghost seen: seq<seq<byte>>)
      requires Conforming(dev)
      modifies this
      ensures dev.mode == Application && !dev.boot0
      ensures var n := GoodPages(file, old(dev).bad, |old(dev).flash|, 0);
              var d := old(dev).(mode := Idle, tx := [], boot0 := true);
              && (ok <==> found && n == PageCount(file))
              && dev.flash == (if found then Written(d, file, n).flash else old(dev).flash)
              && (found && |file| <= |d.flash| + Slack(d) ==> dev.flash == Image(file, n, |d.flash|))
      ensures ok ==> dev.flash == Image(file, PageCount(file), |old(dev).flash|)
      ensures ok ==> |seen| == PageCount(file) && forall k | 0 <= k < |seen| :: seen[k] == [ACK] + Page(file, k)
    {
      hide Image, Padded, Page, GoodPages, PageCount, Unexpected, Slack;
      ok, seen := false, [];
      resetPin, dev := true, dev.(boot0 := true);
      if found {
        ok := WriteTask(file);
        if ok {
          ok, seen := ReadTask(file);
          forall k | 0 <= k < |seen| ensures seen[k] == [ACK] + Page(file, k) {
            ImagePage(file, k, |dev.flash|);
          }
        }
      }
      EndConn();
    }
  }

  const START: seq<byte> := [0x08, 0x00, 0x00, 0x00]

  method StartAddress() returns (a: array<byte>)
    ensures fresh(a) && a.Length == 4 && a[..] == START == AddressAfter(START, 0)
  {
    a := new byte[4];
    a[0], a[1], a[2], a[3] := 0x08, 0x00, 0x00, 0x00;
  }

  // How far the file has been read before block k
  function Position(file: seq<byte>, k: nat): (p: nat)
    ensures p <= |file|
  {
    if 256 * k <= |file| then 256 * k else |file|
  }

  function BlockLength(file: seq<byte>, k: nat): nat {
    Position(file, k + 1) - Position(file, k)
  }

  // The block buffer before block k is read into it
  ghost predicate Prepared(block: seq<byte>, k: nat) {
    |block| >= 256 && forall i | 0 <= i < 256 :: block[i] == if k == 0 then 0x00 else 0xff
  }

  // fread(block, 1, 256, file), at block k; pos' is the new file position
  method ReadBlock(file: seq<byte>, pos: nat, block: array<byte>, ghost k: nat) returns (pos': nat, n: nat)
    requires pos == Position(file, k) && k <= PageCount(file) && 256 <= block.Length <= 257
    requires block.Length == 256 ==> Prepared(block[..], k)
    modifies block
    ensures pos' == Position(file, k + 1) && n == BlockLength(file, k)
    ensures n > 0 <==> k < PageCount(file)
    ensures n > 0 && block.Length == 256 ==> block[..] == Page(file, k)
  {
    hide Page, Padded, Prepared;
    ghost var before := block[..];
    n := if |file| - pos >= 256 then 256 else |file| - pos;
    for i := 0 to n
      invariant forall j | 0 <= j < i :: block[j] == file[pos + j]
      invariant forall j | i <= j < block.Length :: block[j] == before[j]
    {
      block[i] := file[pos + i];
    }
    pos' := pos + n;
    if n > 0 && block.Length == 256 {
      BlockIsPage(file, k, before);
      assert block[..] == file[pos..pos + n] + before[n..];
    }
  }

  // memset(block, 0xff, 256)
  method Fill(block: array<byte>)
    requires block.Length >= 256
    modifies block
    ensures forall k | k > 0 :: Prepared(block[..], k)
  {
    for i := 0 to 256
      invariant forall j | 0 <= j < i :: block[j] == 0xff
    {
      block[i] := 0xff;
    }
  }

  lemma BlockIsPage(file: seq<byte>, k: nat, before: seq<byte>)
    requires k < PageCount(file) && |before| == 256 && Prepared(before, k)
    ensures var p, n := Position(file, k), BlockLength(file, k);
            n <= 256 && file[p..p + n] + before[n..] == Page(file, k)
  {
    var p, n := Position(file, k), BlockLength(file, k);
    forall i | 0 <= i < 256 ensures (file[p..p + n] + before[n..])[i] == Page(file, k)[i] {
      assert Page(file, k)[i] == Padded(file)[256 * k + i];
    }
  }

  // Block k's address: a page of the flash, or the first address behind it
  lemma PageAddress(d: Device, k: nat)
    requires Conforming(d) && 256 * k <= |d.flash|
    ensures var a := AddressAfter(START, k);
            && (InFlash(d, a) <==> 256 * k < |d.flash|)
            && (InFlash(d, a) ==> Offset(a) == 256 * k && 256 * k + 256 <= |d.flash|)
  {
    hide AddressAfter, Address;
    AddressAfterAdds(START, k);
    StartsAtBase();
    Wraps(FLASH_BASE + 256 * k);
  }

  lemma StartsAtBase()
    ensures Address(START) == FLASH_BASE
  {
  }

  lemma Wraps(x: nat)
    requires x <= WORD
    ensures x % WORD == if x == WORD then 0 else x
  {
  }

  lemma AddressStep(k: nat)
    ensures AddressAfter(START, k + 1) == NextAddress(AddressAfter(START, k))
  {
  }

  // memcpy(block, data, 257)
  method CopyInto(block: array<byte>, data: seq<byte>)
    requires block.Length == 257 == |data|
    modifies block
    ensures block[..] == data
  {
    for i := 0 to 257
      invariant block[..i] == data[..i]
    {
      block[i] := data[i];
    }
  }

  lemma FeedNothing(d: Device)
    ensures Feed(d, []) == d
  {
  }
}
