// What writeTask is to leave in the flash, and what it leaves
// (main/STM_FLASH_CONTROLLER/stm_flash/stm_flash.c:5-35).
module FlashImage {
  import opened Octets
  import opened Bootloader
  import opened Flasher

  function PageCount(file: seq<byte>): nat {
    (|file| + 255) / 256
  }

  // The block buffer starts out zeroed and is set to 0xff after each page, so only a file
  // shorter than one page is filled up with zeros.
  function FillByte(file: seq<byte>): byte {
    if |file| < 256 then 0x00 else 0xff
  }

  function Padded(file: seq<byte>): (p: seq<byte>)
    ensures |p| == 256 * PageCount(file) && |p| >= |file|
  {
    file + seq(256 * PageCount(file) - |file|, _ => FillByte(file))
  }

  function Page(file: seq<byte>, k: nat): (p: seq<byte>)
    requires k < PageCount(file)
    ensures |p| == 256
  {
    Padded(file)[256 * k..256 * k + 256]
  }

  // A flash that was erased and then got the first k pages
  function Image(file: seq<byte>, k: nat, size: nat): (f: seq<byte>)
    requires k <= PageCount(file) && 256 * k <= size
    ensures |f| == size
  {
    Padded(file)[..256 * k] + Blank(size - 256 * k)
  }

  // Page k lies in the flash and the device can program it.
  predicate Writable(k: nat, bad: set<nat>, size: nat) {
    256 * k + 256 <= size && 256 * k !in bad
  }

  // How many pages are written before one that is not
  function GoodPages(file: seq<byte>, bad: set<nat>, size: nat, k: nat): (n: nat)
    requires k <= PageCount(file) && 256 * k <= size
    ensures k <= n <= PageCount(file) && 256 * n <= size
    decreases PageCount(file) - k
  {
    if k == PageCount(file) || !Writable(k, bad, size) then k else GoodPages(file, bad, size, k + 1)
  }

  // They are all of them exactly when the file fits the flash and no page of it is a bad one.
  lemma {:induction false} GoodPagesIff(file: seq<byte>, bad: set<nat>, size: nat, k: nat)
    requires k <= PageCount(file) && 256 * k <= size
    ensures GoodPages(file, bad, size, k) == PageCount(file) <==>
              256 * PageCount(file) <= size && forall i | k <= i < PageCount(file) :: 256 * i !in bad
    decreases PageCount(file) - k
  {
    hide PageCount;
    if k == PageCount(file) || !Writable(k, bad, size) {
    } else {
      GoodPagesIff(file, bad, size, k + 1);
    }
  }

  // The image read byte by byte: the pages written so far, which are the file and then its last
  // page's fill, and then erased flash.
  lemma ImageMeans(file: seq<byte>, k: nat, size: nat, j: nat)
    requires k <= PageCount(file) && 256 * k <= size && j < size
    ensures Image(file, k, size)[j] ==
            if j >= 256 * k then 0xff
            else if j < |file| then file[j]
            else if |file| < 256 then 0x00
            else 0xff
    ensures 256 * PageCount(file) >= |file| > 256 * PageCount(file) - 256
  {
  }

  lemma ErasedByte(x: byte)
    ensures ERASED & x == x
  {
  }

  // Programming clears bits only, writes the data where the flash is erased, and nothing elsewhere.
  lemma ProgramClears(flash: seq<byte>, offset: nat, data: seq<byte>, i: nat)
    requires offset + |data| <= |flash| && i < |flash|
    ensures var r := Program(flash, offset, data);
            && r[i] & flash[i] == r[i]
            && (offset <= i < offset + |data| ==> r[i] & data[i - offset] == r[i])
            && (offset <= i < offset + |data| && flash[i] == ERASED ==> r[i] == data[i - offset])
            && (!(offset <= i < offset + |data|) ==> r[i] == flash[i])
  {
  }

  // Programming the next page of an erased flash extends the image.
  lemma ProgramExtends(file: seq<byte>, k: nat, size: nat)
    requires k < PageCount(file) && 256 * k + 256 <= size
    ensures Program(Image(file, k, size), 256 * k, Page(file, k)) == Image(file, k + 1, size)
  {
    hide Padded;
    var before, after := Image(file, k, size), Image(file, k + 1, size);
    var r := Program(before, 256 * k, Page(file, k));
    forall i | 0 <= i < size ensures r[i] == after[i] {
      if 256 * k <= i < 256 * k + 256 { ErasedByte(Page(file, k)[i - 256 * k]); }
    }
  }

  lemma ImageOfNothing(file: seq<byte>, size: nat)
    ensures Image(file, 0, size) == Blank(size)
  {
  }

  // Page k of a completely written image is page k of the file.
  lemma ImagePage(file: seq<byte>, k: nat, size: nat)
    requires k < PageCount(file) && 256 * PageCount(file) <= size
    ensures Image(file, PageCount(file), size)[256 * k..256 * k + 256] == Page(file, k)
  {
    hide Padded, PageCount;
  }

  lemma GoodPagesStep(file: seq<byte>, bad: set<nat>, size: nat, k: nat)
    requires k < PageCount(file) && 256 * k <= size
    ensures GoodPages(file, bad, size, k) ==
            if Writable(k, bad, size) then GoodPages(file, bad, size, k + 1) else k
  {
  }

  lemma GoodPagesEnd(file: seq<byte>, bad: set<nat>, size: nat)
    requires 256 * PageCount(file) <= size
    ensures GoodPages(file, bad, size, PageCount(file)) == PageCount(file)
  {
  }

  // The device after a page it did not expect, all its answers read
  function Unexpected(d: Device, page: seq<byte>): Device {
    Feed(d, PageFrame(page)).(tx := [])
  }

  // The device d, erased, after the first n pages were written and the next one, if any, failed
  function Written(d: Device, file: seq<byte>, n: nat): (r: Device)
    requires n <= PageCount(file) && 256 * n <= |d.flash|
  {
    var before := d.(flash := Image(file, n, |d.flash|));
    if n < PageCount(file) && 256 * n == |d.flash| then Unexpected(before, Page(file, n)) else before
  }
}
