// Files too long for the flash: the first page beyond its end is refused by address, and the device
// then takes the bytes of the page for commands
// (main/STM_FLASH_CONTROLLER/stm_pro_mode/stm_pro_mode.c:277-298).
module Overlong {
  import opened Octets
  import opened Bootloader
  import opened Flasher
  import opened FlashImage

  // How many bytes beyond the end are harmless whatever they are: the shortest erase command ends
  // with a zero in the fifth byte of the page, or in the sixth with the extended command.
  function Slack(d: Device): nat {
    if d.extended then 5 else 4
  }

  // ---- Harmless pages -------------------------------------------------------------

  // With `left` bytes to come, 0xff all but the last, the flash stays as it is.
  ghost predicate Quiet(mode: Mode, left: nat) {
    && left <= 257
    && match mode
       case WriteData(_, got) => (got != [] ==> got[0] == 0xff) && |got| + left < 258
       case EraseParams(got) => |got| <= 1 && |got| + left >= 3
       case ExtEraseParams(got) => |got| <= 2 && |got| + left >= 4
       case _ => true
  }

  // A command changes nothing before its operands.
  lemma CommandStarts(d: Device, code: byte)
    ensures var r := RunCommand(d, code);
            r.flash == d.flash && r.extended == d.extended && Fresh(r) && (code == 0x00 ==> r.mode == Idle)
  {
  }

  lemma FillByteKeeps(d: Device, left: nat)
    requires Quiet(d.mode, left) && left >= 2
    ensures Receive(d, 0xff).flash == d.flash && Quiet(Receive(d, 0xff).mode, left - 1)
  {
    hide RunCommand, ValidAddress, Programs, Xor, Address, Program, Blank;
    if d.mode.Complement? { CommandStarts(d, d.mode.code); }
  }

  lemma LastByteKeeps(d: Device, b: byte)
    requires Quiet(d.mode, 1)
    ensures Receive(d, b).flash == d.flash
  {
    hide RunCommand, ValidAddress, Programs, Xor, Address, Program, Blank;
    if d.mode.Complement? { CommandStarts(d, d.mode.code); }
  }

  lemma {:induction false} FillKeeps(d: Device, s: seq<byte>, left: nat)
    requires Quiet(d.mode, |s| + left) && left >= 1 && forall i | 0 <= i < |s| :: s[i] == 0xff
    ensures Feed(d, s).flash == d.flash && Quiet(Feed(d, s).mode, left)
  {
    hide Receive;
    if s == [] {
    } else {
      var n := |s| - 1;
      FillKeeps(d, s[..n], left + 1);
      FillByteKeeps(Feed(d, s[..n]), left + 1);
    }
  }

  // Right after a command or a refusal
  ghost predicate Fresh(d: Device) {
    || d.mode in {Idle, ReadAddress([]), WriteAddress([])}
    || (!d.extended && d.mode == EraseParams([])) || (d.extended && d.mode == ExtEraseParams([]))
  }

  // Two bytes taken for a command
  lemma PairRuns(d: Device, a: byte, b: byte)
    requires d.mode == Idle
    ensures var r := Feed(d, [a, b]);
            r.flash == d.flash && r.extended == d.extended && Fresh(r)
  {
    hide Feed, Receive;
    Feed2(d, a, b);
    CommandByte(d, a);
    ComplementRuns(d.(mode := Complement(a)), a, b);
  }

  lemma ComplementRuns(d: Device, a: byte, b: byte)
    requires d.mode == Complement(a)
    ensures var r := Receive(d, b);
            r.flash == d.flash && r.extended == d.extended && Fresh(r)
  {
    hide RunCommand, ValidAddress, Programs, Xor, Address, Program, Blank;
    CommandStarts(d, a);
  }

  // The first byte after that, whatever it is
  lemma FreshByte(d: Device, b: byte)
    requires Fresh(d)
    ensures var r := Receive(d, b);
            && r.flash == d.flash && r.extended == d.extended
            && (r.mode in {Complement(b), ReadAddress([b]), WriteAddress([b])}
                || (!d.extended && r.mode == EraseParams([b])) || (d.extended && r.mode == ExtEraseParams([b])))
  {
    assert [] + [b] == [b];
    hide ValidAddress, Programs, Xor, Address, Program, Blank;
  }

  // ... and with the extended command, the second one as well
  lemma SecondByte(d: Device, a: byte, b: byte)
    requires d.extended && d.mode in {Complement(a), ReadAddress([a]), WriteAddress([a]), ExtEraseParams([a])}
    ensures var r := Receive(d, b);
            r.flash == d.flash && forall left | 4 <= left <= 257 :: Quiet(r.mode, left)
  {
    hide ValidAddress, Programs, Xor, Address, Program, Blank;
    if d.mode.Complement? { ComplementRuns(d, a, b); }
  }

  // A page of fill but for its first bytes does nothing to the flash.
  lemma HarmlessPage(d: Device, page: seq<byte>)
    requires Ready(d) && |page| == 256 && forall i | Slack(d) <= i < 256 :: page[i] == 0xff
    ensures Unexpected(d, page).flash == d.flash
  {
    hide Feed, Receive, Xor, Quiet;
    var k, c := Slack(d), Xor([0xff] + page);
    var head := [0xff, page[0]] + [page[1], page[2]] + page[3..k];
    assert PageFrame(page) == head + (page[k..] + [c]);
    FeedConcat(d, head, page[k..] + [c]);
    HeadKeeps(d, page, k);
    var r := Feed(d, head);
    FeedConcat(r, page[k..], [c]);
    FillKeeps(r, page[k..], 1);
    FeedOne(r, page[k..], c);
    LastByteKeeps(Feed(r, page[k..]), c);
  }

  lemma HeadKeeps(d: Device, page: seq<byte>, k: nat)
    requires Ready(d) && |page| == 256 && k == Slack(d)
    ensures var r := Feed(d, [0xff, page[0]] + [page[1], page[2]] + page[3..k]);
            r.flash == d.flash && Quiet(r.mode, 257 - k)
  {
    hide Feed, Receive;
    var pairs := [0xff, page[0]] + [page[1], page[2]];
    FeedConcat(d, [0xff, page[0]], [page[1], page[2]]);
    CommandRefused(d, page[0]);
    PairRuns(Feed(d, [0xff, page[0]]), page[1], page[2]);
    var r := Feed(d, pairs);
    FreshByte(r, page[3]);
    FeedOne(d, pairs, page[3]);
    if d.extended {
      SecondByte(Receive(r, page[3]), page[3], page[4]);
      FeedOne(d, pairs + [page[3]], page[4]);
      assert pairs + page[3..5] == pairs + [page[3]] + [page[4]];
    } else {
      assert pairs + page[3..4] == pairs + [page[3]];
    }
  }

  // 0xff is no command.
  lemma CommandRefused(d: Device, b: byte)
    requires d.mode == Idle
    ensures Feed(d, [0xff, b]) == Respond(d, Idle, [NACK])
  {
    hide Feed, Receive;
    Feed2(d, 0xff, b);
    CommandByte(d, 0xff);
    NoCommand(d.(mode := Complement(0xff)), b);
  }

  lemma NoCommand(d: Device, b: byte)
    requires d.mode == Complement(0xff)
    ensures Receive(d, b) == Respond(d, Idle, [NACK])
  {
    hide ValidAddress, Programs, Xor, Address, Program, Blank;
  }

  // ---- A page that erases ---------------------------------------------------------

  function Filler(n: nat): (s: seq<byte>)
    ensures |s| == n && forall i | 0 <= i < n :: s[i] == 0xff
  {
    seq(n, _ => 0xff)
  }

  // The device's erase command, behind a byte that completes the pair begun by the page's length
  function EraseBytes(extended: bool): (s: seq<byte>)
    ensures |s| == if extended then 6 else 5
  {
    if extended then [0x00, 0x44, 0xbb, 0xff, 0xff, 0x00] else [0x00, 0x43, 0xbc, 0xff, 0x00]
  }

  function ErasingPage(extended: bool): (p: seq<byte>)
    ensures |p| == 256
  {
    EraseBytes(extended) + Filler(256 - |EraseBytes(extended)|)
  }

  lemma ErasingPageErases(d: Device)
    requires Ready(d)
    ensures Unexpected(d, ErasingPage(d.extended)).flash == Blank(|d.flash|)
  {
    hide Feed, Receive, Xor, Blank;
    var page := ErasingPage(d.extended);
    var c, k := Xor([0xff] + page), |EraseBytes(d.extended)|;
    var head, rest := [0xff] + EraseBytes(d.extended), Filler(256 - k);
    assert PageFrame(page) == head + (rest + [c]);
    FeedConcat(d, head, rest + [c]);
    HeadErases(d);
    var r := Feed(d, head);
    FeedConcat(r, rest, [c]);
    FillKeeps(r, rest, 1);
    FeedOne(r, rest, c);
    LastByteKeeps(Feed(r, rest), c);
  }

  lemma HeadErases(d: Device)
    requires Ready(d)
    ensures var r := Feed(d, [0xff] + EraseBytes(d.extended));
            r.mode == Idle && r.flash == Blank(|d.flash|)
  {
    hide Feed, Receive, Blank;
    CommandRefused(d, 0x00);
    var d1 := Feed(d, [0xff, 0x00]);
    if d.extended {
      CommandRuns(d1, 0x44, 0xbb);
      var d2 := Feed(d1, [0x44, 0xbb]);
      ExtEraseTaken(d2);
      assert [0xff] + EraseBytes(true) == [0xff, 0x00] + ([0x44, 0xbb] + [0xff, 0xff, 0x00]);
      FeedConcat(d1, [0x44, 0xbb], [0xff, 0xff, 0x00]);
      FeedConcat(d, [0xff, 0x00], [0x44, 0xbb] + [0xff, 0xff, 0x00]);
    } else {
      CommandRuns(d1, 0x43, 0xbc);
      var d2 := Feed(d1, [0x43, 0xbc]);
      EraseTaken(d2);
      assert [0xff] + EraseBytes(false) == [0xff, 0x00] + ([0x43, 0xbc] + [0xff, 0x00]);
      FeedConcat(d1, [0x43, 0xbc], [0xff, 0x00]);
      FeedConcat(d, [0xff, 0x00], [0x43, 0xbc] + [0xff, 0x00]);
    }
  }

  // ---- Which files keep the pages already written -----------------------------------

  // Writing the file leaves the pages before the first one that fails, and erased bytes behind.
  ghost predicate Kept(d: Device, file: seq<byte>) {
    var n := GoodPages(file, d.bad, |d.flash|, 0);
    Written(d, file, n).flash == Image(file, n, |d.flash|)
  }

  // Some page of the flash is one the device fails to program.
  ghost predicate HasBadPage(d: Device) {
    exists i: nat | 256 * i + 256 <= |d.flash| :: 256 * i in d.bad
  }

  // A file not longer than the flash and the harmless bytes keeps them, whatever it contains.
  lemma ShortFileKept(d: Device, file: seq<byte>)
    requires Ready(d) && Conforming(d) && |file| <= |d.flash| + Slack(d)
    ensures Kept(d, file)
  {
    hide Unexpected, Image, Page, GoodPages;
    var n := GoodPages(file, d.bad, |d.flash|, 0);
    var before := d.(flash := Image(file, n, |d.flash|));
    if n < PageCount(file) && 256 * n == |d.flash| {
      if d.flash == [] {
        SizeKept(before, PageFrame(Page(file, n)));
        NothingToKeep(before, Page(file, n));
      } else {
        LastPageIsFill(file, n, Slack(d));
        HarmlessPage(before, Page(file, n));
      }
    }
  }

  lemma ShortFileWritten(d: Device, file: seq<byte>)
    requires Ready(d) && Conforming(d)
    ensures var n := GoodPages(file, d.bad, |d.flash|, 0);
            |file| <= |d.flash| + Slack(d) ==> Written(d, file, n).flash == Image(file, n, |d.flash|)
  {
    hide Written, Image, GoodPages;
    if |file| <= |d.flash| + Slack(d) { ShortFileKept(d, file); }
  }

  lemma NothingToKeep(d: Device, page: seq<byte>)
    requires d.flash == [] && |Feed(d, PageFrame(page)).flash| == 0
    ensures Unexpected(d, page).flash == d.flash
  {
  }

  lemma {:induction false} SizeKept(d: Device, s: seq<byte>)
    ensures |Feed(d, s).flash| == |d.flash|
  {
    hide Receive;
    if s == [] {
    } else {
      var n := |s| - 1;
      SizeKept(d, s[..n]);
      ByteKeepsSize(Feed(d, s[..n]), s[n]);
    }
  }

  lemma ByteKeepsSize(d: Device, b: byte)
    ensures |Receive(d, b).flash| == |d.flash|
  {
    hide RunCommand, ValidAddress, Xor, Address, Program, Blank;
    if d.mode.Complement? { CommandStarts(d, d.mode.code); }
  }

  lemma LastPageIsFill(file: seq<byte>, n: nat, k: nat)
    requires n < PageCount(file) && n > 0 && |file| <= 256 * n + k && k <= 256
    ensures forall i | k <= i < 256 :: Page(file, n)[i] == 0xff
  {
    forall i | k <= i < 256 ensures Page(file, n)[i] == 0xff {
      assert Page(file, n)[i] == Padded(file)[256 * n + i];
    }
  }

  // With a bad page the writing stops there at the latest, inside the flash.
  lemma {:induction false} StopsAtBad(file: seq<byte>, bad: set<nat>, size: nat, k: nat, i: nat)
    requires k <= i < PageCount(file) && 256 * i <= size && 256 * i in bad
    ensures GoodPages(file, bad, size, k) <= i
    decreases i - k
  {
    hide PageCount;
    if k == i || !Writable(k, bad, size) {
    } else {
      StopsAtBad(file, bad, size, k + 1, i);
    }
  }

  // Without one it goes on to the flash's end.
  lemma {:induction false} FillsFlash(file: seq<byte>, bad: set<nat>, size: nat, k: nat, m: nat)
    requires k <= m <= PageCount(file) && 256 * m == size && forall i: nat | i < m :: 256 * i !in bad
    ensures GoodPages(file, bad, size, k) == m
    decreases m - k
  {
    hide PageCount;
    if k == m {
    } else {
      FillsFlash(file, bad, size, k + 1, m);
    }
  }

  // Zeros for the whole flash, then the erase command, then fill
  function LosingFile(d: Device, length: nat): (file: seq<byte>)
    requires length > |d.flash| + Slack(d)
    ensures |file| == length
  {
    seq(|d.flash|, _ => 0x00) + EraseBytes(d.extended) + Filler(length - |d.flash| - |EraseBytes(d.extended)|)
  }

  lemma LosingPage(d: Device, length: nat, n: nat)
    requires length > |d.flash| + Slack(d) && 256 * n == |d.flash| && n > 0
    ensures var file := LosingFile(d, length);
            && n < PageCount(file) && Page(file, n) == ErasingPage(d.extended)
            && Image(file, n, |d.flash|)[0] == 0x00
  {
    var file := LosingFile(d, length);
    forall i | 0 <= i < 256 ensures Page(file, n)[i] == ErasingPage(d.extended)[i] {
      assert Page(file, n)[i] == Padded(file)[256 * n + i];
    }
  }

  lemma LosingFileLoses(d: Device, length: nat)
    requires Ready(d) && Conforming(d) && d.flash != [] && !HasBadPage(d) && length > |d.flash| + Slack(d)
    ensures !Kept(d, LosingFile(d, length))
    ensures var file := LosingFile(d, length);
            Written(d, file, GoodPages(file, d.bad, |d.flash|, 0)).flash == Blank(|d.flash|)
  {
    hide Unexpected, Image, Page, GoodPages, LosingFile, ErasingPage;
    var file, n := LosingFile(d, length), |d.flash| / 256;
    assert 256 * n == |d.flash|;
    LosingPage(d, length, n);
    forall i: nat | i < n ensures 256 * i !in d.bad { assert 256 * i + 256 <= |d.flash|; }
    FillsFlash(file, d.bad, |d.flash|, 0, n);
    ErasingPageErases(d.(flash := Image(file, n, |d.flash|)));
  }

  // Writing keeps the pages already written, for every file of a length, exactly when that length
  // exceeds the flash by at most four bytes, or five on a device with the extended erase command,
  // or writing never gets beyond the flash's last page, or there is no flash.
  lemma OverlongKeepsIff(d: Device, length: nat)
    requires Ready(d) && Conforming(d)
    ensures (forall file: seq<byte> | |file| == length :: Kept(d, file)) <==>
              length <= |d.flash| + Slack(d) || d.flash == [] || HasBadPage(d)
  {
    hide Kept, HasBadPage, LosingFile;
    if length <= |d.flash| + Slack(d) {
      forall file: seq<byte> | |file| == length ensures Kept(d, file) { ShortFileKept(d, file); }
    } else if d.flash == [] {
      forall file: seq<byte> | |file| == length ensures Kept(d, file) { NoFlashKept(d, file); }
    } else if HasBadPage(d) {
      forall file: seq<byte> | |file| == length ensures Kept(d, file) { BadPageKept(d, file); }
    } else {
      LosingFileLoses(d, length);
    }
  }

  lemma NoFlashKept(d: Device, file: seq<byte>)
    requires d.flash == []
    ensures Kept(d, file)
  {
    hide Unexpected, Page, GoodPages;
    var n := GoodPages(file, d.bad, 0, 0);
    var before := d.(flash := Image(file, n, 0));
    if n < PageCount(file) {
      SizeKept(before, PageFrame(Page(file, n)));
      NothingToKeep(before, Page(file, n));
    }
  }

  lemma BadPageKept(d: Device, file: seq<byte>)
    requires Conforming(d) && HasBadPage(d) && |file| > |d.flash|
    ensures Kept(d, file)
  {
    hide Unexpected, Image, Page, GoodPages;
    var i: nat :| 256 * i + 256 <= |d.flash| && 256 * i in d.bad;
    StopsAtBad(file, d.bad, |d.flash|, 0, i);
  }
}
