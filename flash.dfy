// The bootloader's flash updater (`flash.c`) and the flash memory map: the
// application region may be erased and rewritten 128 bytes at a time; the
// bootloader below it and the storage and updater regions above it are
// protected.
module Flash {
  import opened Bytes

  /** Erase granularity. */
  const FlashPageSize: nat := 1024
  /** Granularity of application writes. */
  const WritePageSize: nat := 128

  const BootloaderEnd: nat := 0x03FF
  const SignatureKeys: nat := 0x03CC
  const Reserved: nat := 0x03FC
  const HwidAddr: nat := 0x03FE
  const AppStart: nat := 0x0400
  const AppEnd: nat := 0x6BFF
  const AppSignature: nat := 0x6BF0
  const AppCrc: nat := 0x6BFE
  const StorageStart: nat := 0x6C00
  const StorageEnd: nat := 0x6FFF
  const UpdaterStart: nat := 0x7000
  const FlashSize: nat := 0x8000

  /** The mask on the erase page register: bits 1 to 5 of the word address's
      high byte. */
  const FaddrhPageBits: byte := 0x3E

  /** The compile-time checks on the memory map. */
  lemma LayoutConsistent()
    ensures AppStart % FlashPageSize == 0 && StorageStart % FlashPageSize == 0
    ensures AppEnd < StorageStart && AppEnd > AppStart
    ensures AppStart > BootloaderEnd && AppEnd < FlashSize
    ensures AppEnd + 1 == StorageStart
  {
  }

  datatype WriteStatus = WriteOk | ErrProtected | ErrBadAddr

  /** The status byte returned to C callers. */
  function StatusCode(s: WriteStatus): (c: byte)
    ensures c == 0 <==> s == WriteOk
  {
    match s
    case WriteOk => 0
    case ErrProtected => 1
    case ErrBadAddr => 2
  }

  /** `flash_write_app_page`'s decision for a 128-byte page index, in the
      order of its tests. */
  function Classify(page: byte): (r: WriteStatus)
  {
    var addr := page * WritePageSize;
    if addr < AppStart then ErrProtected
    else if addr + WritePageSize <= AppEnd + 1 then WriteOk
    else if addr + WritePageSize <= FlashSize then ErrProtected
    else ErrBadAddr
  }

  /** A page is written exactly when it lies wholly inside the application
      region, which holds pages 8 to 215; no 8-bit page index reaches past
      the end of flash, so the bad-address case never happens. */
  lemma ClassifyRanges(page: byte)
    ensures page * WritePageSize + WritePageSize <= FlashSize
    ensures Classify(page) != ErrBadAddr
    ensures Classify(page) == WriteOk <==>
              AppStart <= page * WritePageSize && page * WritePageSize + WritePageSize <= StorageStart
    ensures Classify(page) == WriteOk <==> 8 <= page <= 215
  {
  }

  /** `(addr >> 9) & FADDRH_PAGE_BITS`: the erase page register for an
      address. */
  function ErasePageRegister(addr: u16): (h: byte)
  {
    ((addr / 512) % 64) / 2 * 2
  }

  /** The word address registers for a write: `addr >> 9` and
      `(addr >> 1) & 0xff`. */
  function WriteHigh(addr: u16): (h: byte)
  {
    addr / 512
  }

  function WriteLow(addr: u16): (l: byte)
  {
    (addr / 2) % 0x100
  }

  /** The two write registers together hold the word (2-byte) address. */
  lemma WriteRegistersAreWordAddress(addr: u16)
    ensures 2 * (0x100 * WriteHigh(addr) + WriteLow(addr)) == addr - addr % 2
  {
  }

  /** On a page-aligned address in flash the mask keeps the whole word
      address of the page. */
  lemma EraseRegisterSelectsPage(addr: u16)
    requires addr % FlashPageSize == 0 && addr < FlashSize
    ensures 512 * ErasePageRegister(addr) == addr
  {
  }

  /** A register write that starts a flash operation. */
  datatype FlashOp =
    | EraseTrigger(faddrh: byte)
    | WriteTrigger(faddrh: byte, faddrl: byte, data: seq<byte>)

  /** The erase triggers of `flash_erase_app`, one per page from the start of
      the application region. */
  function EraseTriggers(n: nat): (ops: seq<FlashOp>)
    ensures |ops| == n
  {
    seq(n, i => EraseTrigger(ErasePageRegister(Wrap16(AppStart + i * FlashPageSize))))
  }

  /** `m` with its application region erased (every byte 0xFF). */
  function EraseApp(m: seq<byte>): (r: seq<byte>)
    requires |m| == FlashSize
    ensures |r| == FlashSize
  {
    m[..AppStart] + seq(StorageStart - AppStart, _ => 0xFF) + m[StorageStart..]
  }

  /** `cur` is `m` with the application pages below `addr` erased. */
  predicate ErasedUpTo(m: seq<byte>, cur: seq<byte>, addr: nat)
    requires |m| == FlashSize && AppStart <= addr <= StorageStart
  {
    cur == m[..AppStart] + seq(addr - AppStart, _ => 0xFF) + m[addr..]
  }

  /** Erasing the page at `addr` extends the erased prefix by one page; once
      it reaches the storage region the whole application region is erased. */
  lemma EraseStep(m: seq<byte>, cur: seq<byte>, addr: nat)
    requires |m| == FlashSize && AppStart <= addr && addr + FlashPageSize <= StorageStart
    requires ErasedUpTo(m, cur, addr)
    ensures ErasedUpTo(m, cur[..addr] + seq(FlashPageSize, _ => 0xFF) + cur[addr + FlashPageSize..], addr + FlashPageSize)
    ensures addr + FlashPageSize == StorageStart ==>
              cur[..addr] + seq(FlashPageSize, _ => 0xFF) + cur[addr + FlashPageSize..] == EraseApp(m)
  {
    var next := cur[..addr] + seq(FlashPageSize, _ => 0xFF) + cur[addr + FlashPageSize..];
    var want := m[..AppStart] + seq(addr + FlashPageSize - AppStart, _ => 0xFF) + m[addr + FlashPageSize..];
    assert |next| == |want|;
    forall k | 0 <= k < |next| ensures next[k] == want[k] {
      if k < addr {
        assert next[k] == cur[k];
      }
    }
  }

  /** One more erase trigger, for the page at `addr`. */
  lemma EraseTriggersSnoc(before: seq<FlashOp>, n: nat, addr: nat)
    requires addr == AppStart + n * FlashPageSize < 0x10000
    ensures before + EraseTriggers(n) + [EraseTrigger(ErasePageRegister(addr))] == before + EraseTriggers(n + 1)
  {
    assert Wrap16(addr) == addr;
    assert EraseTriggers(n + 1) == EraseTriggers(n) + [EraseTrigger(ErasePageRegister(addr))];
  }

  /** The chip's flash, with the registers and triggers of the flash
      controller. */
  class FlashMemory {
    const mem: array<byte>
    var faddrh: byte
    var faddrl: byte
    var ops: seq<FlashOp>

    ghost predicate Valid()
    {
      mem.Length == FlashSize
    }

    constructor (image: seq<byte>)
      requires |image| == FlashSize
      ensures Valid() && mem[..] == image && ops == []
    {
      mem := new byte[FlashSize](i requires 0 <= i < FlashSize => image[i]);
      faddrh, faddrl := 0, 0;
      ops := [];
      new;
      assert mem[..] == image;
    }

    /** `flash_erase_app`: one erase per 1024-byte page from the start of the
        application region while the address is at most its end, which is 26
        pages and exactly the region up to storage. */
    method EraseAppRegion()
      requires Valid()
      modifies this, mem
      ensures Valid()
      ensures mem[..] == EraseApp(old(mem[..]))
      ensures ops == old(ops) + EraseTriggers(26)
    {
      ghost var m := mem[..];
      ghost var before := ops;
      ghost var n := 0;
      var addr: u16 := AppStart;
      while addr <= AppEnd
        invariant n <= 26 && addr == AppStart + n * FlashPageSize
        invariant ErasedUpTo(m, mem[..], addr)
        invariant ops == before + EraseTriggers(n)
      {
        faddrh := ErasePageRegister(addr);
        faddrl := 0;
        ops := ops + [EraseTrigger(faddrh)];
        EraseTriggersSnoc(before, n, addr);
        ghost var cur := mem[..];
        ErasePage(addr);
        EraseStep(m, cur, addr);
        addr := addr + FlashPageSize;
        n := n + 1;
      }
    }

    /** The effect of one erase trigger: the 1024 bytes of the page read as
        0xFF. */
    method ErasePage(addr: nat)
      requires Valid() && addr + FlashPageSize <= FlashSize
      modifies mem
      ensures mem[..] == old(mem[..addr]) + seq(FlashPageSize, _ => 0xFF) + old(mem[addr + FlashPageSize..])
    {
      forall k | addr <= k < addr + FlashPageSize {
        mem[k] := 0xFF;
      }
    }

    /** `flash_write`: sets the word address, streams `len` bytes from
        `buf[from..]` into flash and reports success. */
    method Write(addr: u16, buf: array<byte>, from: nat, len: nat) returns (status: WriteStatus)
      requires Valid() && buf != mem
      requires from + len <= buf.Length && addr + len <= FlashSize
      modifies this, mem
      ensures Valid() && status == WriteOk
      ensures faddrh == WriteHigh(addr) && faddrl == WriteLow(addr)
      ensures ops == old(ops) + [WriteTrigger(faddrh, faddrl, buf[from..from + len])]
      ensures mem[..] == Splice(old(mem[..]), addr, buf[from..from + len])
    {
      var v := buf[from..from + len];
      ghost var before := mem[..];
      faddrh := WriteHigh(addr);
      faddrl := WriteLow(addr);
      ops := ops + [WriteTrigger(faddrh, faddrl, v)];
      forall k | addr <= k < addr + len {
        mem[k] := buf[from + k - addr];
      }
      forall k | 0 <= k < mem.Length
        ensures mem[k] == Splice(before, addr, v)[k]
      {
        SpliceIndex(before, addr, v, k);
      }
      assert mem[..] == Splice(before, addr, v);
      assert buf[from..from + len] == v;
      status := WriteOk;
    }

    /** `flash_write_app_page`: writes the 128 bytes at `buf[from..]` to the
        page when `Classify` allows it; otherwise nothing is written. */
    method WriteAppPage(page: byte, buf: array<byte>, from: nat) returns (status: WriteStatus)
      requires Valid() && buf != mem && from + WritePageSize <= buf.Length
      modifies this, mem
      ensures Valid() && status == Classify(page)
      ensures status == WriteOk ==>
                mem[..] == Splice(old(mem[..]), page * WritePageSize, buf[from..from + WritePageSize])
      ensures status != WriteOk ==> mem[..] == old(mem[..]) && ops == old(ops)
    {
      var addr: u16 := page * WritePageSize;
      if addr < AppStart {
        status := ErrProtected;
      } else if addr + WritePageSize <= AppEnd + 1 {
        status := Write(addr, buf, from, WritePageSize);
      } else if addr + WritePageSize <= FlashSize {
        status := ErrProtected;
      } else {
        status := ErrBadAddr;
      }
    }
  }
}
