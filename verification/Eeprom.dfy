/**
 Reading and writing an I2C EEPROM in chunks. The device's address counter wraps inside a page when
 writing and inside a 256-byte block when reading; the chunks are cut so that it never does.
 */
module Eeprom {
  import opened Arithmetic
  import opened Octets

  const I2C_RXTX_LEN := 128

  function PageSize(bits: nat): (p: nat)
    ensures p >= 1
  {
    if bits == 0 then 1 else 2 * PageSize(bits - 1)
  }

  /** `eeprom_len`: the page offset is taken from the offset in the 256-byte block. */
  function ChunkLen(bits: nat, offset: nat, end: nat): int {
    var left := PageSize(bits) - offset % 256 % PageSize(bits);
    var most := if left > I2C_RXTX_LEN then I2C_RXTX_LEN else left;
    if end - offset > most then most else end - offset
  }

  /** The `len` bytes from `offset` on stay inside one aligned unit of `size` bytes. */
  predicate Inside(size: nat, offset: nat, len: int)
    requires size > 0
  {
    offset % size + len <= size
  }

  lemma BlockIsPage()
    ensures PageSize(8) == 256
  {
    assert PageSize(4) == 16;
    assert PageSize(6) == 64;
  }

  /** Pages of up to 256 bytes divide the 256-byte block. */
  lemma {:induction false} PageDivides(bits: nat)
    requires bits <= 8
    ensures PageSize(bits) * PageSize(8 - bits) == 256
  {
    if bits == 0 {
      BlockIsPage();
    } else {
      PageDivides(bits - 1);
      Shift(PageSize(bits - 1), PageSize(8 - bits));
    }
  }

  lemma Shift(x: nat, y: nat)
    ensures (2 * x) * y == x * (2 * y)
  {
  }

  /** Larger ones are multiples of it. */
  lemma {:induction false} PageMultiple(bits: nat)
    requires bits > 8
    ensures PageSize(bits) >= 512 && PageSize(bits) % 256 == 0
  {
    if bits == 9 {
      BlockIsPage();
    } else {
      PageMultiple(bits - 1);
    }
  }

  lemma Nested(p: nat, q: nat, c: nat, d: nat, a: nat)
    requires p > 0 && d < p && p * c + d < p * q
    ensures (p * q) * a + (p * c + d) == (q * a + c) * p + d
    ensures p * c + p <= p * q
  {
    assert c + 1 <= q by {
      if c >= q {
        MulMonotone(q, c, p);
      }
    }
    MulMonotone(c + 1, q, p);
  }

  lemma UnitInBlock(p: nat, q: nat, block: nat, offset: nat)
    requires p > 0 && block > 0 && p * q == block
    ensures offset % block % p == offset % p
    ensures p - offset % p <= block - offset % block
  {
    var a, b := offset / block, offset % block;
    var c, d := b / p, b % p;
    DivMod(offset, block);
    DivMod(b, p);
    assert p * c + d == b;
    Nested(p, q, c, d, a);
    DivModUnique(offset, p, q * a + c, d);
  }

  /** A page of at most 256 bytes is placed by the offset in the block alone. */
  lemma PageInBlock(bits: nat, offset: nat)
    requires bits <= 8
    ensures offset % 256 % PageSize(bits) == offset % PageSize(bits)
    ensures PageSize(bits) - offset % PageSize(bits) <= 256 - offset % 256
  {
    PageDivides(bits);
    UnitInBlock(PageSize(bits), PageSize(8 - bits), 256, offset);
  }

  /** A chunk has 1 to 128 bytes and crosses neither a page nor a block. */
  lemma ChunkFits(bits: nat, offset: nat, end: nat)
    requires bits <= 8 && offset < end
    ensures var len := ChunkLen(bits, offset, end);
            1 <= len <= 128 && offset + len <= end && Inside(PageSize(bits), offset, len) && Inside(256, offset, len)
  {
    PageInBlock(bits, offset);
  }

  /** It is the longest such chunk that ends with the request. */
  lemma ChunkLongest(bits: nat, offset: nat, end: nat, n: nat)
    requires bits <= 8 && n <= 128 && offset + n <= end && Inside(PageSize(bits), offset, n)
    ensures n <= ChunkLen(bits, offset, end)
  {
    PageInBlock(bits, offset);
  }

  /** How many chunks the request from `offset` to `end` takes. */
  function ChunkCount(bits: nat, offset: nat, end: nat): nat
    requires bits <= 8
    decreases end - offset
  {
    if offset >= end then 0
    else
      ChunkFits(bits, offset, end);
      1 + ChunkCount(bits, offset + ChunkLen(bits, offset, end), end)
  }

  /** The number of the chunk that holds `k`. */
  function ChunkAt(bits: nat, offset: nat, end: nat, k: nat): nat
    requires bits <= 8 && offset <= k < end
    decreases end - offset
  {
    ChunkFits(bits, offset, end);
    var next := offset + ChunkLen(bits, offset, end);
    if k < next then 0 else 1 + ChunkAt(bits, next, end, k)
  }

  lemma {:induction false} ChunkAtBelow(bits: nat, offset: nat, end: nat, k: nat)
    requires bits <= 8 && offset <= k < end
    ensures ChunkAt(bits, offset, end, k) < ChunkCount(bits, offset, end)
    decreases end - offset
  {
    ChunkFits(bits, offset, end);
    var next := offset + ChunkLen(bits, offset, end);
    if k >= next {
      ChunkAtBelow(bits, next, end, k);
    }
  }

  lemma LastOfPage(p: nat)
    requires p >= 512 && p % 256 == 0
    ensures (p - 1) % p == p - 1 && (p - 1) % 256 % p == 255
  {
    DivModUnique(p - 1, p, 0, p - 1);
    DivModUnique(255, p, 0, 255);
    DivModUnique(p - 1, 256, p / 256 - 1, 255);
  }

  lemma LargePageCrossed(bits: nat)
    requires bits > 8
    ensures var p := PageSize(bits); !Inside(p, p - 1, ChunkLen(bits, p - 1, p + 127))
  {
    PageMultiple(bits);
    LastOfPage(PageSize(bits));
  }

  /** For larger pages it is not so: the last byte of a page starts a chunk that leaves it. */
  lemma ChunkFitsIff(bits: nat)
    ensures bits <= 8 <==>
            (forall offset: nat, end: nat :: offset < end ==>
                Inside(PageSize(bits), offset, ChunkLen(bits, offset, end)))
  {
    if bits <= 8 {
      forall offset: nat, end: nat | offset < end ensures Inside(PageSize(bits), offset, ChunkLen(bits, offset, end)) {
        ChunkFits(bits, offset, end);
      }
    } else {
      LargePageCrossed(bits);
    }
  }

  // ----- the address on the bus

  const OCTET := 8

  /** Bitwise or of two numbers of `n` bits. */
  function Or(x: nat, y: nat, n: nat): nat {
    if n == 0 then 0 else 2 * Or(x / 2, y / 2, n - 1) + (if x % 2 == 1 || y % 2 == 1 then 1 else 0)
  }

  /** No bit is set in both. */
  predicate Clear(x: nat, y: nat, n: nat) {
    n == 0 || (!(x % 2 == 1 && y % 2 == 1) && Clear(x / 2, y / 2, n - 1))
  }

  lemma {:induction false} OrIsSum(x: nat, y: nat, n: nat)
    requires x < PageSize(n) && y < PageSize(n) && Clear(x, y, n)
    ensures Or(x, y, n) == x + y
  {
    if n > 0 {
      OrIsSum(x / 2, y / 2, n - 1);
    }
  }

  /** The device octet and the register that a block transfer is addressed to. */
  datatype Address = Address(device: nat, register: nat)

  function BlockOf(regs: nat, offset: nat): nat
    requires regs > 0
  {
    offset / regs
  }

  /** `eeprom_addr` for registers of one or two octets: the block number goes into the device octet. */
  function AddressOf(regs: nat, dev: nat, offset: nat): Address
    requires regs > 0
  {
    Address(Or(dev, BlockOf(regs, offset) % 256, OCTET), offset % regs)
  }

  /** The block number keeps to bits that the device's own address leaves clear. */
  predicate Reached(regs: nat, dev: nat, offset: nat)
    requires regs > 0
  {
    dev < 256 && BlockOf(regs, offset) < 256 && Clear(dev, BlockOf(regs, offset), OCTET)
  }

  lemma LowBits(block: nat)
    requires block < 256
    ensures block % 256 == block
  {
  }

  lemma AddressIs(regs: nat, dev: nat, offset: nat)
    requires regs > 0 && Reached(regs, dev, offset)
    ensures AddressOf(regs, dev, offset) == Address(dev + BlockOf(regs, offset), offset % regs)
  {
    var block := BlockOf(regs, offset);
    LowBits(block);
    OctetIsSum(dev, block, OCTET);
  }

  lemma OctetIsSum(dev: nat, block: nat, n: nat)
    requires n == OCTET && dev < 256 && block < 256 && Clear(dev, block, n)
    ensures Or(dev, block, n) == dev + block
  {
    BlockIsPage();
    OrIsSum(dev, block, n);
  }

  /** Then no two offsets share an address. */
  lemma AddressUnique(regs: nat, dev: nat, x: nat, y: nat)
    requires regs > 0 && Reached(regs, dev, x) && Reached(regs, dev, y)
    ensures AddressOf(regs, dev, x) == AddressOf(regs, dev, y) <==> x == y
  {
    AddressIs(regs, dev, x);
    AddressIs(regs, dev, y);
    DivMod(x, regs);
    DivMod(y, regs);
  }

  predicate IsRegs(regs: nat) {
    regs == 256 || regs == 0x1_0000
  }

  /** Inside a 256-byte block the register counts up and the device octet stays. */
  lemma NextAddress(regs: nat, dev: nat, offset: nat, len: nat, i: nat)
    requires IsRegs(regs) && Inside(256, offset, len) && i < len
    ensures AddressOf(regs, dev, offset + i) == Address(AddressOf(regs, dev, offset).device, offset % regs + i)
  {
    UnitInBlock(256, regs / 256, regs, offset);
    DivMod(offset, regs);
    DivModUnique(offset + i, regs, offset / regs, offset % regs + i);
  }

  lemma RegisterInside(bits: nat, regs: nat, offset: nat, len: nat)
    requires bits <= 8 && IsRegs(regs) && Inside(PageSize(bits), offset, len) && Inside(256, offset, len)
    ensures Inside(PageSize(bits), offset % regs, len) && Inside(256, offset % regs, len)
  {
    var p, q, m := PageSize(bits), PageSize(8 - bits), regs / 256;
    PageDivides(bits);
    assert p * (q * m) == regs by {
      assert (p * q) * m == regs;
      MulAssociates(p, q, m);
    }
    UnitInBlock(p, q * m, regs, offset);
    UnitInBlock(256, m, regs, offset);
  }

  lemma MulAssociates(x: int, y: int, z: int)
    ensures x * (y * z) == (x * y) * z
  {
  }

  // ----- the device

  /** Where byte `i` of an access at a register lands when the counter wraps inside a unit of `size` bytes. */
  function Wrapped(size: nat, register: nat, i: nat): nat
    requires size > 0
  {
    register - register % size + (register + i) % size
  }

  lemma NoWrap(size: nat, register: nat, len: nat, i: nat)
    requires size > 0 && Inside(size, register, len) && i < len
    ensures Wrapped(size, register, i) == register + i
  {
    var q, r := register / size, register % size;
    assert register + i == q * size + (r + i) by {
      assert register == q * size + r;
    }
    DivModUnique(register + i, size, q, r + i);
  }

  /** The cell `i` registers on. */
  function Cell(at: Address, i: nat): Address {
    Address(at.device, at.register + i)
  }

  /** Cell `a` lies among the `len` registers from `at` on. */
  predicate Among(a: Address, at: Address, len: int) {
    a.device == at.device && at.register <= a.register < at.register + len
  }

  class Chip {
    const bits: nat
    const regs: nat
    const dev: nat
    const size: nat
    var cells: map<Address, byte>

    /** Every offset below `size` has a cell of its own. */
    ghost predicate Valid()
      reads this
    {
      bits <= 8 && IsRegs(regs) && forall k :: 0 <= k < size ==> Reached(regs, dev, k) && At(k) in cells
    }

    function At(k: nat): Address {
      if regs > 0 then AddressOf(regs, dev, k) else Address(0, 0)
    }

    constructor (bits: nat, regs: nat, dev: nat, size: nat, cells: map<Address, byte>)
      ensures this.bits == bits && this.regs == regs && this.dev == dev && this.size == size && this.cells == cells
    {
      this.bits, this.regs, this.dev, this.size, this.cells := bits, regs, dev, size, cells;
    }

    /** One bus write of `len` bytes of `data` from `from` on. */
    method WriteBlock(at: Address, data: array<byte>, from: nat, len: nat)
      requires Inside(PageSize(bits), at.register, len) && from + len <= data.Length
      requires forall i :: 0 <= i < len ==> Cell(at, i) in cells
      modifies this
      ensures cells.Keys == old(cells.Keys)
      ensures forall a :: a in cells ==>
        cells[a] == if Among(a, at, len) then data[from + a.register - at.register] else old(cells)[a]
    {
      for i := 0 to len
        invariant cells.Keys == old(cells.Keys)
        invariant forall a :: a in cells ==>
          cells[a] == if Among(a, at, i) then data[from + a.register - at.register] else old(cells)[a]
      {
        NoWrap(PageSize(bits), at.register, len, i);
        assert Cell(at, i) in cells;
        cells := cells[Address(at.device, Wrapped(PageSize(bits), at.register, i)) := data[from + i]];
      }
    }

    /** One bus read of `len` bytes into `data` from `from` on. */
    method ReadBlock(at: Address, data: array<byte>, from: nat, len: nat)
      requires Inside(256, at.register, len) && from + len <= data.Length
      requires forall i :: 0 <= i < len ==> Cell(at, i) in cells
      modifies data
      ensures forall k :: 0 <= k < data.Length ==>
                data[k] == if from <= k < from + len then cells[Cell(at, k - from)] else old(data[k])
    {
      for i := 0 to len
        invariant forall k :: 0 <= k < data.Length ==>
                    data[k] == if from <= k < from + i then cells[Cell(at, k - from)] else old(data[k])
      {
        NoWrap(256, at.register, len, i);
        assert Cell(at, i) in cells;
        data[from + i] := cells[Address(at.device, Wrapped(256, at.register, i))];
      }
    }

    // ----- as flat memory

    /** The bytes of the chip by offset. */
    ghost function Flat(): seq<byte>
      requires Valid()
      reads this
    {
      seq(size, k requires 0 <= k < size && At(k) in cells reads this => cells[At(k)])
    }

    /** The cells of a chunk are those of its offsets. */
    lemma ChunkCell(offset: nat, len: nat, i: nat)
      requires IsRegs(regs) && Inside(256, offset, len) && i < len
      ensures Cell(At(offset), i) == At(offset + i)
    {
      NextAddress(regs, dev, offset, len, i);
    }

    lemma AmongIff(offset: nat, len: nat, k: nat)
      requires Valid() && Inside(256, offset, len) && offset + len <= size && k < size
      ensures Among(At(k), At(offset), len) <==> offset <= k < offset + len
      ensures Among(At(k), At(offset), len) ==> At(k).register - At(offset).register == k - offset
    {
      if offset <= k < offset + len {
        ChunkCell(offset, len, k - offset);
      }
      if Among(At(k), At(offset), len) {
        var i := At(k).register - At(offset).register;
        ChunkCell(offset, len, i);
        AddressUnique(regs, dev, k, offset + i);
      }
    }

    lemma ChunkThere(offset: nat, len: nat)
      requires Valid() && Inside(256, offset, len) && offset + len <= size
      ensures forall i :: 0 <= i < len ==> Cell(At(offset), i) in cells
    {
      forall i | 0 <= i < len ensures Cell(At(offset), i) in cells {
        ChunkCell(offset, len, i);
      }
    }

    /** A chunk written is the same chunk of flat memory written. */
    method WriteChunk(offset: nat, data: array<byte>, from: nat, len: nat)
      requires Valid() && Inside(PageSize(bits), offset, len) && Inside(256, offset, len)
      requires offset + len <= size && from + len <= data.Length
      modifies this
      ensures Valid()
      ensures forall k :: 0 <= k < size ==>
                Flat()[k] == if offset <= k < offset + len then data[from + k - offset] else old(Flat())[k]
    {
      RegisterInside(bits, regs, offset, len);
      ChunkThere(offset, len);
      WriteBlock(At(offset), data, from, len);
      forall k | 0 <= k < size
        ensures Flat()[k] == if offset <= k < offset + len then data[from + k - offset] else old(Flat())[k]
      {
        AmongIff(offset, len, k);
      }
    }

    lemma ChunkFlat(offset: nat, len: nat, i: nat)
      requires Valid() && Inside(256, offset, len) && offset + len <= size && i < len
      ensures Cell(At(offset), i) in cells && cells[Cell(At(offset), i)] == Flat()[offset + i]
    {
      ChunkCell(offset, len, i);
    }

    method ReadChunk(offset: nat, data: array<byte>, from: nat, len: nat)
      requires Valid() && Inside(PageSize(bits), offset, len) && Inside(256, offset, len)
      requires offset + len <= size && from + len <= data.Length
      modifies data
      ensures forall k :: 0 <= k < data.Length ==>
                data[k] == if from <= k < from + len then Flat()[offset + k - from] else old(data[k])
    {
      RegisterInside(bits, regs, offset, len);
      ChunkThere(offset, len);
      ReadBlock(At(offset), data, from, len);
      forall k | from <= k < from + len ensures data[k] == Flat()[offset + k - from] {
        ChunkFlat(offset, len, k - from);
      }
    }

    /** Offset `k` lies in the request, before `upto`, and in a chunk that succeeded. */
    ghost predicate Moved(offset: nat, end: nat, upto: nat, status: nat -> int, k: nat)
      requires bits <= 8 && upto <= end
    {
      offset <= k < upto && status(ChunkAt(bits, offset, end, k)) == 0
    }

    /** The chunks from `at` on are those of the request from number `blocks` on. */
    ghost predicate Numbered(offset: nat, end: nat, at: nat, blocks: nat)
      requires bits <= 8 && offset <= at
    {
      && blocks + ChunkCount(bits, at, end) == ChunkCount(bits, offset, end)
      && forall k :: at <= k < end ==> ChunkAt(bits, offset, end, k) == blocks + ChunkAt(bits, at, end, k)
    }

    lemma NextNumbered(offset: nat, end: nat, at: nat, blocks: nat)
      requires bits <= 8 && offset <= at < end && Numbered(offset, end, at, blocks)
      ensures var len := ChunkLen(bits, at, end);
              && 1 <= len && at + len <= end && Numbered(offset, end, at + len, blocks + 1)
              && forall k :: at <= k < at + len ==> ChunkAt(bits, offset, end, k) == blocks
    {
      ChunkFits(bits, at, end);
    }

    /** `flat` is `was` with the chunks that succeeded before `upto` written from the buffer. */
    ghost predicate Written(flat: seq<byte>, was: seq<byte>, buf: seq<byte>,
                            offset: nat, end: nat, upto: nat, status: nat -> int)
      requires bits <= 8 && offset <= upto <= end <= |flat| && end - offset <= |buf|
    {
      |flat| == |was| && forall k: nat :: k < |flat| ==>
        flat[k] == if Moved(offset, end, upto, status, k) then buf[k - offset] else was[k]
    }

    /** The buffer is `was` with the chunks that succeeded before `upto` read from flat memory. */
    ghost predicate Fetched(buf: seq<byte>, was: seq<byte>, flat: seq<byte>,
                            offset: nat, end: nat, upto: nat, status: nat -> int)
      requires bits <= 8 && offset <= upto <= end <= |flat| && end - offset <= |buf|
    {
      |buf| == |was| && forall k: nat :: k < |buf| ==>
        buf[k] == if Moved(offset, end, upto, status, offset + k) then flat[offset + k] else was[k]
    }

    lemma WrittenNext(flat': seq<byte>, flat: seq<byte>, was: seq<byte>, buf: seq<byte>,
                      offset: nat, end: nat, at: nat, len: nat, blocks: nat, status: nat -> int)
      requires bits <= 8 && offset <= at && at + len <= end <= |flat| && end - offset <= |buf|
      requires Written(flat, was, buf, offset, end, at, status) && |flat'| == |flat|
      requires forall k :: 0 <= k < |flat| ==>
                 flat'[k] == if status(blocks) == 0 && at <= k < at + len then buf[k - offset] else flat[k]
      requires forall k :: at <= k < at + len ==> ChunkAt(bits, offset, end, k) == blocks
      ensures Written(flat', was, buf, offset, end, at + len, status)
    {
    }

    lemma FetchedNext(buf': seq<byte>, buf: seq<byte>, was: seq<byte>, flat: seq<byte>,
                      offset: nat, end: nat, at: nat, len: nat, blocks: nat, status: nat -> int)
      requires bits <= 8 && offset <= at && at + len <= end <= |flat| && end - offset <= |buf|
      requires Fetched(buf, was, flat, offset, end, at, status) && |buf'| == |buf|
      requires forall k :: 0 <= k < |buf| ==>
                 buf'[k] == if status(blocks) == 0 && at <= offset + k < at + len then flat[offset + k] else buf[k]
      requires forall k :: at <= k < at + len ==> ChunkAt(bits, offset, end, k) == blocks
      ensures Fetched(buf', was, flat, offset, end, at + len, status)
    {
    }

    /** The transfer of one chunk, if the bus lets it through; the buffer starts at offset `base`. */
    method RwChunk(base: nat, offset: nat, buffer: array<byte>, len: nat, isRead: bool, rcode: int)
      requires Valid() && Inside(PageSize(bits), offset, len) && Inside(256, offset, len)
      requires base <= offset && offset + len <= size && offset + len - base <= buffer.Length
      modifies this, buffer
      ensures Valid() && (isRead ==> cells == old(cells)) && (!isRead ==> buffer[..] == old(buffer[..]))
      ensures !isRead ==> forall k :: 0 <= k < size ==>
                Flat()[k] == if rcode == 0 && offset <= k < offset + len then buffer[k - base] else old(Flat())[k]
      ensures isRead ==> forall k :: 0 <= k < buffer.Length ==>
                buffer[k] ==
                if rcode == 0 && offset <= base + k < offset + len then Flat()[base + k] else old(buffer[k])
    {
      if rcode == 0 {
        if isRead {
          ReadChunk(offset, buffer, offset - base, len);
        } else {
          WriteChunk(offset, buffer, offset - base, len);
        }
      }
    }

    /** What has been moved before `upto`. */
    ghost predicate Done(buffer: array<byte>, isRead: bool, buf0: seq<byte>, flat0: seq<byte>,
                         offset: nat, end: nat, upto: nat, status: nat -> int)
      requires Valid() && offset <= upto <= end <= size && end - offset <= buffer.Length
      reads this, buffer
    {
      if isRead then Fetched(buffer[..], buf0, Flat(), offset, end, upto, status)
      else Written(Flat(), flat0, buffer[..], offset, end, upto, status)
    }

    /** One turn of the loop. */
    method Turn(base: nat, end: nat, offset: nat, blocks: nat, buffer: array<byte>, isRead: bool, status: nat -> int,
                ghost buf0: seq<byte>, ghost flat0: seq<byte>)
      returns (rcode: int, len: nat)
      requires Valid() && base <= offset < end <= size && end - base <= buffer.Length
      requires Numbered(base, end, offset, blocks) && Done(buffer, isRead, buf0, flat0, base, end, offset, status)
      modifies this, buffer
      ensures Valid() && (isRead ==> cells == old(cells)) && (!isRead ==> buffer[..] == old(buffer[..]))
      ensures rcode == status(blocks) && len > 0 && offset + len <= end && Numbered(base, end, offset + len, blocks + 1)
      ensures Done(buffer, isRead, buf0, flat0, base, end, offset + len, status)
    {
      len := ChunkLen(bits, offset, end);
      ChunkFits(bits, offset, end);
      NextNumbered(base, end, offset, blocks);
      ghost var buf, flat := buffer[..], Flat();
      rcode := status(blocks);
      RwChunk(base, offset, buffer, len, isRead, rcode);
      if isRead {
        FetchedNext(buffer[..], buf, buf0, Flat(), base, end, offset, len, blocks, status);
      } else {
        WrittenNext(Flat(), flat, flat0, buffer[..], base, end, offset, len, blocks, status);
      }
    }

    /**
     `eeprom_rw`; `status` is the result of each chunk. All chunks of the request are tried. A write is a flat
     write of the buffer and a read a flat read into it, but for the chunks that failed. The result is that of
     the last chunk only.
     */
    method Rw(offset0: nat, buffer: array<byte>, cnt: nat, isRead: bool, status: nat -> int)
      returns (rcode: int, blocks: nat)
      requires Valid() && offset0 + cnt <= size && offset0 + cnt < 0x1_0000_0000 && cnt <= buffer.Length
      modifies this, buffer
      ensures Valid() && blocks == ChunkCount(bits, offset0, offset0 + cnt)
      ensures rcode == if blocks == 0 then 0 else status(blocks - 1)
      ensures isRead ==> cells == old(cells)
      ensures !isRead ==> buffer[..] == old(buffer[..])
      ensures Done(buffer, isRead, old(buffer[..]), old(Flat()), offset0, offset0 + cnt, offset0 + cnt, status)
    {
      var offset, end := offset0, offset0 + cnt;
      rcode, blocks := 0, 0;
      while offset < end
        invariant offset0 <= offset <= end && Numbered(offset0, end, offset, blocks) && Valid()
        invariant rcode == if blocks == 0 then 0 else status(blocks - 1)
        invariant isRead ==> cells == old(cells)
        invariant !isRead ==> buffer[..] == old(buffer[..])
        invariant Done(buffer, isRead, old(buffer[..]), old(Flat()), offset0, end, offset, status)
      {
        var len;
        rcode, len := Turn(offset0, end, offset, blocks, buffer, isRead, status, old(buffer[..]), old(Flat()));
        blocks := blocks + 1;
        offset := offset + len;
      }
    }

    lemma AllMoved(offset: nat, end: nat, status: nat -> int, k: nat)
      requires bits <= 8 && offset <= k < end && AllOk(status, ChunkCount(bits, offset, end))
      ensures Moved(offset, end, end, status, k)
    {
      ChunkAtBelow(bits, offset, end, k);
    }

    lemma ReadsBack(flat: seq<byte>, flat0: seq<byte>, src: seq<byte>, dst: seq<byte>, dst0: seq<byte>,
                    offset: nat, cnt: nat, sent: nat -> int, got: nat -> int)
      requires bits <= 8 && offset + cnt <= |flat| && cnt <= |src| && cnt <= |dst|
      requires AllOk(sent, ChunkCount(bits, offset, offset + cnt)) && AllOk(got, ChunkCount(bits, offset, offset + cnt))
      requires Written(flat, flat0, src, offset, offset + cnt, offset + cnt, sent)
      requires Fetched(dst, dst0, flat, offset, offset + cnt, offset + cnt, got)
      ensures dst[..cnt] == src[..cnt]
    {
      forall k | 0 <= k < cnt ensures dst[k] == src[k] {
        AllMoved(offset, offset + cnt, sent, offset + k);
        AllMoved(offset, offset + cnt, got, offset + k);
      }
    }

    /** `eeprom_write` then `eeprom_read` of the same range returns what was written. */
    method WriteThenRead(offset: nat, src: array<byte>, dst: array<byte>, cnt: nat, sent: nat -> int, got: nat -> int)
      returns (w: nat, r: nat)
      requires Valid() && offset + cnt <= size && offset + cnt < 0x1_0000_0000
      requires cnt <= src.Length && cnt <= dst.Length && src != dst
      modifies this, src, dst
      ensures AllOk(sent, w) && AllOk(got, r) ==> dst[..cnt] == old(src[..cnt])
    {
      var rc;
      ghost var flat0, dst0 := Flat(), dst[..];
      rc, w := Rw(offset, src, cnt, false, sent);
      assert src[..] == old(src[..]);
      ghost var flat := Flat();
      rc, r := Rw(offset, dst, cnt, true, got);
      assert Flat() == flat;
      if AllOk(sent, w) && AllOk(got, r) {
        ReadsBack(flat, flat0, src[..], dst[..], dst0, offset, cnt, sent, got);
        assert dst[..cnt] == dst[..][..cnt] && src[..cnt] == src[..][..cnt];
      }
    }
  }

  /** The first `n` blocks succeeded. */
  ghost predicate AllOk(status: nat -> int, n: nat) {
    forall k: nat :: k < n ==> status(k) == 0
  }
}
