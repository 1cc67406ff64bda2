/**
 Reading blocks from a floppy disk: addressing by track, head and sector, chunks that stay on one track
 side, and a retry scheme of read retries inside recalibrations. The controller is an oracle.
 */
module Floppy {
  import opened Arithmetic
  import opened Octets

  const FDC_RW_RETRIES := 3
  const FDC_CAL_RETRIES := 3

  /** Sectors for each track side, heads, and the sector size code. */
  datatype Geometry = Geometry(sect: nat, head: nat, sectCode: nat) {
    predicate Valid() {
      0 < sect < 256 && 0 < head <= 256
    }

    function SectSize(): nat {
      Shifted(sectCode)
    }

    static function Shifted(code: nat): (s: nat)
      ensures s >= 128
    {
      if code == 0 then 128 else 2 * Shifted(code - 1)
    }
  }

  /** The sector sizes of the usual codes. */
  lemma SectSizes(g: Geometry)
    ensures g.sectCode == 0 ==> g.SectSize() == 128
    ensures g.sectCode == 1 ==> g.SectSize() == 256
    ensures g.sectCode == 2 ==> g.SectSize() == 512
    ensures g.sectCode == 3 ==> g.SectSize() == 1024
  {
    assert Geometry.Shifted(1) == 256;
  }

  // ----- addressing

  /** The command bytes that say where to read. */
  datatype Address = Address(track: byte, head: byte, sector: byte)

  function Locate(g: Geometry, blnr: nat): Address
    requires g.Valid()
  {
    var track := blnr / (g.sect * g.head);
    var rest := blnr % (g.sect * g.head);
    Address(track % 256, rest / g.sect % 256, (rest % g.sect + 1) % 256)
  }

  /** The block that the drive finds at an address. */
  function BlockAt(g: Geometry, a: Address): int {
    (a.track * g.head + a.head) * g.sect + a.sector - 1
  }

  /** The block numbers that an 8-bit track number can reach. */
  function Capacity(g: Geometry): nat {
    256 * (g.sect * g.head)
  }

  lemma Recombine(t: int, h: int, s: int, sect: int, head: int)
    ensures (t * head + h) * sect + s == t * (sect * head) + (h * sect + s)
  {
    assert (t * head + h) * sect == t * head * sect + h * sect;
    assert t * head * sect == t * (sect * head);
  }

  lemma CombineParts(b: int, t: int, r: int, h: int, s: int, sect: int, head: int)
    requires b == t * (sect * head) + r && r == h * sect + s && 0 <= s < sect
    ensures (t * head + h) * sect + s == b && b % sect == s
  {
    Recombine(t, h, s, sect, head);
    DivModUnique(b, sect, t * head + h, s);
  }

  /** The parts of a block number, without the truncation to command bytes; `n` is sectors on a track. */
  lemma LocateParts(b: nat, n: nat, sect: nat, head: nat) returns (t: nat, h: nat, s: nat)
    requires 0 < sect && 0 < n == head * sect && b < 256 * n
    ensures t == b / n && h == b % n / sect && s == b % n % sect
    ensures t < 256 && h < head && s < sect && b == t * n + b % n && b % n == h * sect + s
  {
    t, h, s := b / n, b % n / sect, b % n % sect;
    DivMod(b, n);
    DivBound(b, n, 256);
    DivMod(b % n, sect);
    DivBound(b % n, sect, head);
  }

  lemma SmallByte(x: int)
    requires 0 <= x < 256
    ensures x % 256 == x
  {
  }

  /** Addressing inverts: the drive finds the block that was asked for, on an existing head and sector. */
  lemma LocateFinds(g: Geometry, blnr: nat)
    requires g.Valid() && blnr < Capacity(g)
    ensures BlockAt(g, Locate(g, blnr)) == blnr
    ensures var a := Locate(g, blnr); a.head < g.head && a.sector == blnr % g.sect + 1 <= g.sect
  {
    var n := g.sect * g.head;
    MulAtLeast(g.sect, g.head);
    var t, h, s := LocateParts(blnr, n, g.sect, g.head);
    CombineParts(blnr, t, blnr % n, h, s, g.sect, g.head);
    SmallByte(t);
    SmallByte(h);
    SmallByte(s + 1);
    assert Locate(g, blnr) == Address(t, h, s + 1);
  }

  // ----- the controller

  /**
   What the controller does, as functions of how many commands of each kind came before: whether a
   READ is accepted, whether its transfer breaks off and where, what it delivers until then, and
   whether seeks and recalibrations succeed.
   */
  datatype Controller = Controller(
    issueOk: nat -> bool, fault: nat -> bool, faultAt: nat -> nat, garbage: (nat, nat) -> byte,
    seekOk: nat -> bool, recalOk: nat -> bool)

  /** Transfer errors among the first `k` READ commands. */
  ghost function Failures(c: Controller, k: nat): nat {
    if k == 0 then 0 else Failures(c, k - 1) + if c.fault(k - 1) then 1 else 0
  }

  lemma {:induction false} FailuresGrow(c: Controller, k: nat, m: nat)
    requires k <= m
    ensures Failures(c, k) <= Failures(c, m) <= Failures(c, k) + (m - k)
    decreases m
  {
    if k < m {
      FailuresGrow(c, k, m - 1);
    }
  }

  ghost predicate Obedient(c: Controller) {
    forall k :: c.issueOk(k) && c.seekOk(k) && c.recalOk(k)
  }

  /** One READ command: where, and how many blocks. */
  datatype Read = Read(at: Address, blocks: nat)

  /** The command stays on its track side. */
  predicate OneSide(g: Geometry, r: Read) {
    1 <= r.at.sector && r.at.sector - 1 + r.blocks <= g.sect
  }

  /** How many chunks a request takes: to the end of the first track side, then side by side. */
  function Chunks(g: Geometry, blnr: nat, blocks: nat): nat
    requires g.Valid()
    decreases blocks
  {
    var n := g.sect - blnr % g.sect;
    if blocks <= n then 1 else 1 + Chunks(g, blnr + n, blocks - n)
  }

  function Min(a: int, b: int): int {
    if a > b then b else a
  }

  /** `len` bytes of the transfer of one READ command, into the buffer from `offset` on. */
  method Transfer(buffer: array<byte>, offset: nat, len: nat, disk: seq<byte>, from: nat, c: Controller, nth: nat)
    returns (ok: bool)
    requires offset + len <= buffer.Length && from + len <= |disk|
    modifies buffer
    ensures buffer[..offset] == old(buffer[..offset])
    ensures ok == (len == 0 || !c.fault(nth))
    ensures ok ==> buffer[offset..offset + len] == disk[from..from + len]
  {
    var i := 0;
    while i < len
      invariant 0 <= i <= len && (len > 0 && c.fault(nth) ==> i <= c.faultAt(nth) % len)
      invariant buffer[..offset] == old(buffer[..offset])
      invariant !c.fault(nth) ==> buffer[offset..offset + i] == disk[from..from + i]
    {
      if c.fault(nth) && i == c.faultAt(nth) % len {
        return false;
      }
      buffer[offset + i] := if c.fault(nth) then c.garbage(nth, i) else disk[from + i];
      i := i + 1;
    }
    ok := true;
  }

  /** The number of bytes in `n` blocks. */
  function Bytes(g: Geometry, n: nat): nat {
    if n == 0 then 0 else Bytes(g, n - 1) + g.SectSize()
  }

  /** `sect_size * readblk`. */
  lemma {:induction false} BytesIsProduct(g: Geometry, n: nat)
    ensures Bytes(g, n) == g.SectSize() * n
  {
    if n > 0 {
      BytesIsProduct(g, n - 1);
    }
  }

  lemma {:induction false} BytesAdd(g: Geometry, m: nat, n: nat)
    ensures Bytes(g, m + n) == Bytes(g, m) + Bytes(g, n)
  {
    if n > 0 {
      BytesAdd(g, m, n - 1);
    }
  }

  /** What the loop of `fdc_read_data` keeps: the buffer holds the blocks read so far. */
  ghost predicate Reading(g: Geometry, disk: seq<byte>, buffer: array<byte>, blnr0: nat, blnr: nat, offset: nat)
    reads buffer
  {
    && blnr0 <= blnr && offset == Bytes(g, blnr - blnr0)
    && HoldsBytes(disk, Bytes(g, blnr0), buffer, offset)
  }

  ghost predicate HoldsBytes(disk: seq<byte>, base: nat, buffer: array<byte>, offset: nat)
    reads buffer
  {
    offset <= buffer.Length && base + offset <= |disk| && buffer[..offset] == disk[base..base + offset]
  }

  lemma SliceExtend(disk: seq<byte>, base: nat, buf: seq<byte>, offset: nat, len: nat)
    requires offset + len <= |buf| && base + offset + len <= |disk|
    requires buf[..offset] == disk[base..base + offset]
    requires buf[offset..offset + len] == disk[base + offset..base + offset + len]
    ensures buf[..offset + len] == disk[base..base + offset + len]
  {
    assert buf[..offset + len] == buf[..offset] + buf[offset..offset + len];
    assert disk[base..base + offset + len] == disk[base..base + offset] + disk[base + offset..base + offset + len];
  }

  /** The READ command for `n` blocks, and where on the disk its drive finds the first byte. */
  method Issue(g: Geometry, blnr: nat, n: nat) returns (cmd: Read, from: nat)
    requires g.Valid() && n <= g.sect - blnr % g.sect && blnr < Capacity(g)
    ensures cmd == Read(Locate(g, blnr), n) && OneSide(g, cmd) && from == Bytes(g, blnr)
  {
    LocateFinds(g, blnr);
    cmd := Read(Locate(g, blnr), n);
    from := Bytes(g, BlockAt(g, cmd.at));
  }

  /** A transfer that goes on where the buffer ends: a success adds `len` bytes, a fault keeps what is there. */
  method Extend(buffer: array<byte>, offset: nat, len: nat, disk: seq<byte>, ghost base: nat, from: nat,
                c: Controller, nth: nat)
    returns (ok: bool)
    requires HoldsBytes(disk, base, buffer, offset) && from == base + offset
    requires offset + len <= buffer.Length && from + len <= |disk|
    modifies buffer
    ensures ok == (len == 0 || !c.fault(nth))
    ensures HoldsBytes(disk, base, buffer, if ok then offset + len else offset)
  {
    ok := Transfer(buffer, offset, len, disk, from, c, nth);
    if ok {
      SliceExtend(disk, base, buffer[..], offset, len);
    }
  }

  /** One READ command of `n` blocks: its address, its transfer, and what a success adds. */
  method ReadChunk(g: Geometry, disk: seq<byte>, buffer: array<byte>, ghost blnr0: nat,
                   blnr: nat, offset: nat, n: nat, c: Controller, nth: nat)
    returns (ok: bool, cmd: Read)
    requires g.Valid() && Reading(g, disk, buffer, blnr0, blnr, offset)
    requires n <= g.sect - blnr % g.sect && blnr < Capacity(g)
    requires offset + Bytes(g, n) <= buffer.Length && Bytes(g, blnr0) + offset + Bytes(g, n) <= |disk|
    modifies buffer
    ensures OneSide(g, cmd)
    ensures ok == (n == 0 || !c.fault(nth))
    ensures if ok then Reading(g, disk, buffer, blnr0, blnr + n, offset + Bytes(g, n))
            else Reading(g, disk, buffer, blnr0, blnr, offset)
  {
    var len := g.SectSize() * n;
    BytesIsProduct(g, n);
    ChunkPlace(g, blnr0, blnr, n);
    var from;
    cmd, from := Issue(g, blnr, n);
    ok := Extend(buffer, offset, len, disk, Bytes(g, blnr0), from, c, nth);
  }

  /** Where a chunk lies on the disk and how far it fills the buffer. */
  lemma ChunkPlace(g: Geometry, blnr0: nat, blnr: nat, n: nat)
    requires blnr0 <= blnr
    ensures Bytes(g, blnr) == Bytes(g, blnr0) + Bytes(g, blnr - blnr0)
    ensures Bytes(g, blnr + n - blnr0) == Bytes(g, blnr - blnr0) + Bytes(g, n)
  {
    BytesAdd(g, blnr0, blnr - blnr0);
    BytesAdd(g, blnr - blnr0, n);
  }

  /** After a chunk that does not finish the request, the next block is the first of a track side. */
  lemma NextSide(g: Geometry, blnr: nat)
    requires g.Valid()
    ensures (blnr + (g.sect - blnr % g.sect)) % g.sect == 0
  {
    DivMod(blnr, g.sect);
    DivModUnique(blnr + (g.sect - blnr % g.sect), g.sect, blnr / g.sect + 1, 0);
  }

  /** The next chunk fits in the buffer and on the disk if the whole request does. */
  lemma BytesLeft(g: Geometry, blnr0: nat, blnr: nat, blocks: nat, n: nat)
    requires blnr0 <= blnr && n <= blocks
    ensures var offset := Bytes(g, blnr - blnr0);
            && offset + Bytes(g, n) <= Bytes(g, blnr - blnr0 + blocks)
            && Bytes(g, blnr0) + offset + Bytes(g, n) <= Bytes(g, blnr + blocks)
  {
    BytesAdd(g, blnr0, blnr - blnr0);
    BytesAdd(g, blnr - blnr0, blocks);
    BytesAdd(g, blnr, blocks);
    BytesAdd(g, n, blocks - n);
  }

  /** The counters of the loop: commands so far, the two retry counters, and the chunks already read. */
  ghost predicate Counted(c: Controller, cmds: nat, rw: nat, cal: nat, done: nat) {
    rw <= 4 && cal <= 4 && Failures(c, cmds) == 5 * cal + rw && cmds == done + 5 * cal + rw
  }

  /** A request: the first block, how many, and room for them on disk and in memory. */
  ghost predicate Request(g: Geometry, disk: seq<byte>, buffer: array<byte>, blnr0: nat, blocks0: nat) {
    && g.Valid() && blnr0 < Capacity(g) && blnr0 + blocks0 <= Capacity(g)
    && Bytes(g, blocks0) <= buffer.Length && Bytes(g, blnr0 + blocks0) <= |disk|
  }

  /** How far the loop is: next block, blocks left, bytes stored, and blocks of the next chunk. */
  datatype Position = Position(blnr: nat, blocks: nat, offset: nat, n: nat)

  /** What is left of the request in `chunks` chunks. */
  ghost predicate Plan(g: Geometry, blnr0: nat, blocks0: nat, p: Position, chunks: int)
    requires g.Valid()
  {
    && blnr0 <= p.blnr < Capacity(g) && p.blnr + p.blocks == blnr0 + blocks0 && (p.blocks == 0 ==> blocks0 == 0)
    && p.n == Min(g.sect - p.blnr % g.sect, p.blocks) && chunks == Chunks(g, p.blnr, p.blocks)
  }

  /** The position after a chunk was read, and the command that did it. */
  function Advance(g: Geometry, p: Position): Position
    requires p.n <= p.blocks
  {
    Position(p.blnr + p.n, p.blocks - p.n, p.offset + Bytes(g, p.n), Min(g.sect, p.blocks - p.n))
  }

  lemma ChunkStep(g: Geometry, blnr: nat, blocks: nat, n: nat)
    requires g.Valid() && n == Min(g.sect - blnr % g.sect, blocks)
    ensures n <= blocks && (n == blocks ==> Chunks(g, blnr, blocks) == 1)
    ensures n < blocks ==>
              0 < n && Chunks(g, blnr, blocks) == 1 + Chunks(g, blnr + n, blocks - n) && (blnr + n) % g.sect == 0
  {
    DivMod(blnr, g.sect);
    NextSide(g, blnr);
  }

  /** After a chunk the request is done, or there is one chunk less to come. */
  lemma PlanStep(g: Geometry, blnr0: nat, blocks0: nat, p: Position, chunks: int)
    requires g.Valid() && blnr0 + blocks0 <= Capacity(g) && Plan(g, blnr0, blocks0, p, chunks)
    ensures p.n <= p.blocks && (p.n == 0 ==> blocks0 == 0) && (p.n == p.blocks ==> chunks == 1)
    ensures p.n < p.blocks ==> Plan(g, blnr0, blocks0, Advance(g, p), chunks - 1)
  {
    ChunkStep(g, p.blnr, p.blocks, p.n);
  }

  /** One READ command of the loop. */
  method ReadNext(g: Geometry, disk: seq<byte>, buffer: array<byte>, ghost blnr0: nat, ghost blocks0: nat, p: Position,
                  ghost chunks: int, c: Controller, nth: nat) returns (ok: bool, cmd: Read)
    requires Request(g, disk, buffer, blnr0, blocks0)
    requires Plan(g, blnr0, blocks0, p, chunks) && Reading(g, disk, buffer, blnr0, p.blnr, p.offset)
    modifies buffer
    ensures OneSide(g, cmd) && ok == (p.n == 0 || !c.fault(nth))
    ensures if ok then Reading(g, disk, buffer, blnr0, p.blnr + p.n, p.offset + Bytes(g, p.n))
            else Reading(g, disk, buffer, blnr0, p.blnr, p.offset)
  {
    DivMod(p.blnr, g.sect);
    BytesLeft(g, blnr0, p.blnr, p.blocks, p.n);
    ok, cmd := ReadChunk(g, disk, buffer, blnr0, p.blnr, p.offset, p.n, c, nth);
  }

  /** Success or failure is decided by the errors among the first `total + 24` commands. */
  lemma Verdict(c: Controller, cmds: nat, done: nat, total: nat)
    requires done <= total && cmds == done + Failures(c, cmds)
    ensures done == total && Failures(c, cmds) <= 24 ==> Failures(c, total + 24) <= 24
    ensures done < total && Failures(c, cmds) == 25 ==> Failures(c, total + 24) > 24
  {
    if done == total && Failures(c, cmds) <= 24 {
      FailuresGrow(c, cmds, total + 24);
    }
    if done < total && Failures(c, cmds) == 25 {
      FailuresGrow(c, cmds, total + 24);
    }
  }

  /** The first so many commands of each kind are obeyed. */
  ghost predicate Worked(c: Controller, cmds: nat, seeks: nat, recals: nat) {
    && (forall k: nat :: k < cmds ==> c.issueOk(k))
    && (forall k: nat :: k < seeks ==> c.seekOk(k))
    && (forall k: nat :: k < recals ==> c.recalOk(k))
  }

  /**
   `cmds` READ commands get `total` chunks across: at most 24 of them break off, every fifth that does costs a
   recalibration, and a seek precedes every chunk and follows every recalibration.
   */
  ghost predicate Enough(c: Controller, total: nat, cmds: nat) {
    var f := Failures(c, cmds);
    cmds == total + f && f <= 24 && Worked(c, cmds, total + f / 5, f / 5)
  }

  /** Commands enough for all chunks go on behind those that were enough for fewer. */
  lemma MoreToCome(c: Controller, total: nat, m: nat, cmds: nat, done: nat)
    requires done < total && cmds == done + Failures(c, cmds) && Enough(c, total, m)
    ensures cmds < m && Failures(c, cmds) <= Failures(c, m)
  {
    if m <= cmds {
      FailuresGrow(c, m, cmds);
    } else {
      FailuresGrow(c, cmds, m);
    }
  }

  ghost predicate Hopeless(c: Controller, total: nat) {
    forall m: nat :: !Enough(c, total, m)
  }

  /** A refused command, the 25th error, and a recalibration or seek that fails each end the call for good. */
  lemma GivesUp(c: Controller, total: nat, cmds: nat, done: nat)
    requires done < total && cmds == done + Failures(c, cmds)
    ensures !c.issueOk(cmds) ==> Hopeless(c, total)
    ensures Failures(c, cmds) > 24 ==> Hopeless(c, total)
    ensures forall cal: nat :: cal < Failures(c, cmds) / 5 && !c.recalOk(cal) ==> Hopeless(c, total)
    ensures forall k: nat :: k < total + Failures(c, cmds) / 5 && !c.seekOk(k) ==> Hopeless(c, total)
  {
    forall m: nat | Enough(c, total, m)
      ensures cmds < m && Failures(c, cmds) <= Failures(c, m)
    {
      MoreToCome(c, total, m, cmds, done);
    }
  }

  /** After a transfer error: retry, recalibrate and seek, or give up. The counters have counted it. */
  method AfterError(c: Controller, rw: nat, cal: nat, recals: nat, seeks: nat)
    returns (go: bool, rw': nat, cal': nat, recals': nat, seeks': nat)
    requires rw <= 4 && cal <= 4
    ensures go ==> 5 * cal' + rw' == 5 * cal + rw + 1 && rw' <= 4 && cal' <= 4
    ensures 5 * cal + rw == 24 ==> !go
    ensures !go && Obedient(c) ==> 5 * cal + rw == 24
    ensures go ==> recals' - recals == seeks' - seeks == cal' - cal >= 0
    ensures go && recals' > recals ==> c.recalOk(recals) && c.seekOk(seeks)
    ensures !go ==> 5 * cal + rw == 24 || (rw == 4 && (!c.recalOk(recals) || !c.seekOk(seeks)))
  {
    go, rw', cal', recals', seeks' := true, rw + 1, cal, recals, seeks;
    if rw > FDC_RW_RETRIES {
      if cal > FDC_CAL_RETRIES || !c.recalOk(recals) {
        return false, rw', cal', recals', seeks';
      }
      cal', recals', rw' := cal + 1, recals + 1, 0;
      go := c.seekOk(seeks);
      seeks' := seeks + 1;
    }
  }

  lemma StartPlan(g: Geometry, disk: seq<byte>, buffer: array<byte>, blnr0: nat, blocks0: nat)
    requires Request(g, disk, buffer, blnr0, blocks0)
    ensures Plan(g, blnr0, blocks0, Position(blnr0, blocks0, 0, Min(g.sect - blnr0 % g.sect, blocks0)),
            Chunks(g, blnr0, blocks0))
    ensures Reading(g, disk, buffer, blnr0, blnr0, 0)
  {
    DivMod(blnr0, g.sect);
    BytesLeft(g, blnr0, blnr0, blocks0, 0);
  }

  /** The position and the counters of the loop. */
  datatype Loop = Loop(p: Position, rw: nat, cal: nat, cmds: nat, seeks: nat, recals: nat)

  /** The recalibrations and seeks so far, all of which worked. */
  ghost predicate Healthy(c: Controller, l: Loop, done: nat) {
    l.recals == l.cal && l.seeks == 1 + done + l.cal && Worked(c, l.cmds, l.seeks, l.recals)
  }

  ghost predicate Going(g: Geometry, disk: seq<byte>, buffer: array<byte>, blnr0: nat, blocks0: nat,
                        c: Controller, l: Loop, done: nat)
    requires g.Valid()
    reads buffer
  {
    && Plan(g, blnr0, blocks0, l.p, Chunks(g, blnr0, blocks0) - done)
    && Reading(g, disk, buffer, blnr0, l.p.blnr, l.p.offset)
    && Counted(c, l.cmds, l.rw, l.cal, done) && Healthy(c, l, done)
  }

  datatype Result = Again | Finished | Failed

  /** What a result says of the controller. */
  ghost predicate Judged(c: Controller, r: Result, total: nat, blocks0: nat) {
    && (r == Finished && blocks0 > 0 ==> !Hopeless(c, total))
    && (r == Failed ==> blocks0 > 0 && Hopeless(c, total))
    && (r == Finished && blocks0 > 0 ==> Failures(c, total + 24) <= 24)
    && (r == Failed && Obedient(c) ==> blocks0 > 0 && Failures(c, total + 24) > 24)
  }

  lemma ErrorGivesUp(c: Controller, l: Loop, done: nat, total: nat)
    requires Counted(c, l.cmds, l.rw, l.cal, done) && Healthy(c, l, done) && c.fault(l.cmds) && done < total
    ensures Failures(c, l.cmds + 1) == 5 * l.cal + l.rw + 1
    ensures 5 * l.cal + l.rw == 24 || (l.rw == 4 && (!c.recalOk(l.recals) || !c.seekOk(l.seeks))) ==> Hopeless(c, total)
  {
    GivesUp(c, total, l.cmds + 1, done);
  }

  /** A transfer error: go on with other counters, or give up. */
  method OnError(c: Controller, l: Loop, ghost done: nat, ghost total: nat, ghost blocks0: nat)
    returns (r: Result, l': Loop)
    requires Counted(c, l.cmds, l.rw, l.cal, done) && Healthy(c, l, done)
    requires c.fault(l.cmds) && c.issueOk(l.cmds) && done < total && blocks0 > 0
    ensures r != Finished && Judged(c, r, total, blocks0) && l'.p == l.p
    ensures r == Again ==> Counted(c, l'.cmds, l'.rw, l'.cal, done) && Healthy(c, l', done)
    ensures r == Again ==> 5 * l'.cal + l'.rw > 5 * l.cal + l.rw
  {
    var go, rw, cal, recals, seeks := AfterError(c, l.rw, l.cal, l.recals, l.seeks);
    Verdict(c, l.cmds + 1, done, total);
    ErrorGivesUp(c, l, done, total);
    l' := Loop(l.p, rw, cal, l.cmds + 1, seeks, recals);
    r := if go then Again else Failed;
  }

  lemma LastChunk(c: Controller, l: Loop, done: nat)
    requires Counted(c, l.cmds, l.rw, l.cal, done) && Healthy(c, l, done) && c.issueOk(l.cmds) && !c.fault(l.cmds)
    ensures Enough(c, done + 1, l.cmds + 1) && !Hopeless(c, done + 1)
  {
    var m: nat := l.cmds + 1;
    assert Failures(c, m) == 5 * l.cal + l.rw;
    assert Enough(c, done + 1, m);
  }

  /** The last chunk was read. */
  lemma LastJudged(c: Controller, l: Loop, done: nat, blocks0: nat)
    requires Counted(c, l.cmds, l.rw, l.cal, done) && Healthy(c, l, done) && c.issueOk(l.cmds)
    requires blocks0 > 0 ==> !c.fault(l.cmds)
    ensures Judged(c, Finished, done + 1, blocks0)
  {
    if blocks0 > 0 {
      Verdict(c, l.cmds + 1, done + 1, done + 1);
      LastChunk(c, l, done);
    }
  }

  /** A chunk that is not the last was read, and the next seek decides. */
  lemma NextJudged(c: Controller, l: Loop, l': Loop, done: nat, total: nat, blocks0: nat)
    requires Counted(c, l.cmds, l.rw, l.cal, done) && Healthy(c, l, done) && c.issueOk(l.cmds) && !c.fault(l.cmds)
    requires done + 1 < total && blocks0 > 0
    requires l'.cmds == l.cmds + 1 && l'.seeks == l.seeks + 1
    requires l'.rw == l.rw && l'.cal == l.cal && l'.recals == l.recals
    ensures Judged(c, if c.seekOk(l.seeks) then Again else Failed, total, blocks0)
    ensures c.seekOk(l.seeks) ==> Counted(c, l'.cmds, l'.rw, l'.cal, done + 1) && Healthy(c, l', done + 1)
  {
    GivesUp(c, total, l.cmds + 1, done + 1);
  }

  /** A chunk was read: the request is done, or a seek leads to the next chunk. */
  method OnChunk(g: Geometry, c: Controller, l: Loop, ghost blnr0: nat, ghost blocks0: nat, ghost done: nat)
    returns (r: Result, l': Loop)
    requires g.Valid() && blnr0 + blocks0 <= Capacity(g) && Counted(c, l.cmds, l.rw, l.cal, done)
    requires Healthy(c, l, done) && c.issueOk(l.cmds) && (l.p.n == 0 || !c.fault(l.cmds))
    requires Plan(g, blnr0, blocks0, l.p, Chunks(g, blnr0, blocks0) - done) && l.p.n <= l.p.blocks
    ensures Judged(c, r, Chunks(g, blnr0, blocks0), blocks0)
    ensures l'.p.blnr == l.p.blnr + l.p.n && (r == Finished ==> l.p.n == l.p.blocks)
    ensures r == Again ==> l.p.n <= l.p.blocks && l'.p == Advance(g, l.p) && l.p.n > 0
    ensures r == Again ==>
              Counted(c, l'.cmds, l'.rw, l'.cal, done + 1) && Healthy(c, l', done + 1) &&
              Plan(g, blnr0, blocks0, l'.p, Chunks(g, blnr0, blocks0) - (done + 1))
  {
    PlanStep(g, blnr0, blocks0, l.p, Chunks(g, blnr0, blocks0) - done);
    l' := l.(p := Advance(g, l.p), cmds := l.cmds + 1);
    if l.p.n == l.p.blocks {
      LastJudged(c, l, done, blocks0);
      r := Finished;
    } else {
      l' := l'.(seeks := l.seeks + 1);
      NextJudged(c, l, l', done, Chunks(g, blnr0, blocks0), blocks0);
      r := if c.seekOk(l.seeks) then Again else Failed;
    }
  }

  /** One turn of the loop of `fdc_read_data`. */
  method Turn(g: Geometry, disk: seq<byte>, buffer: array<byte>, ghost blnr0: nat, ghost blocks0: nat,
              c: Controller, l: Loop, ghost done: nat)
    returns (r: Result, l': Loop, cmd: Read, ghost done': nat)
    requires Request(g, disk, buffer, blnr0, blocks0)
    requires Going(g, disk, buffer, blnr0, blocks0, c, l, done) && c.issueOk(l.cmds)
    modifies buffer
    ensures OneSide(g, cmd) && Judged(c, r, Chunks(g, blnr0, blocks0), blocks0)
    ensures r == Finished ==>
              l'.p.blnr == blnr0 + blocks0 && Reading(g, disk, buffer, blnr0, l'.p.blnr, Bytes(g, blocks0))
    ensures r == Again ==> Going(g, disk, buffer, blnr0, blocks0, c, l', done')
    ensures r == Again ==> l'.p.blocks < l.p.blocks || (l'.p == l.p && 5 * l'.cal + l'.rw > 5 * l.cal + l.rw)
    ensures blocks0 == 0 ==> r != Again
  {
    var ok;
    PlanStep(g, blnr0, blocks0, l.p, Chunks(g, blnr0, blocks0) - done);
    PlanSome(g, l.p.blnr, l.p.blocks);
    ok, cmd := ReadNext(g, disk, buffer, blnr0, blocks0, l.p, Chunks(g, blnr0, blocks0) - done, c, l.cmds);
    if ok {
      r, l' := OnChunk(g, c, l, blnr0, blocks0, done);
      done' := done + 1;
    } else {
      r, l' := OnError(c, l, done, Chunks(g, blnr0, blocks0), blocks0);
      done' := done;
    }
  }

  lemma PlanSome(g: Geometry, blnr: nat, blocks: nat)
    requires g.Valid()
    ensures Chunks(g, blnr, blocks) >= 1
  {
  }

  /** What the call says of the controller: exactly whether it can get the chunks across. */
  ghost predicate Decided(c: Controller, ok: bool, total: nat, blocks0: nat) {
    && (blocks0 > 0 ==> (ok <==> !Hopeless(c, total)))
    && (blocks0 == 0 ==> (ok <==> c.seekOk(0) && c.issueOk(0)))
    && (Obedient(c) && blocks0 > 0 ==> (ok <==> Failures(c, total + 24) <= 24))
  }

  /** A command that the controller refuses. */
  lemma IssueRefused(c: Controller, l: Loop, done: nat, total: nat, blocks0: nat)
    requires Counted(c, l.cmds, l.rw, l.cal, done) && done < total && !c.issueOk(l.cmds)
    requires blocks0 == 0 ==> l.cmds == 0
    ensures Decided(c, false, total, blocks0)
  {
    GivesUp(c, total, l.cmds, done);
  }

  lemma SeekRefused(c: Controller, total: nat, blocks0: nat)
    requires total > 0 && !c.seekOk(0)
    ensures Decided(c, false, total, blocks0)
  {
    GivesUp(c, total, 0, 0);
  }

  lemma TurnDecides(c: Controller, r: Result, total: nat, blocks0: nat)
    requires r != Again && Judged(c, r, total, blocks0) && c.seekOk(0) && (blocks0 == 0 ==> c.issueOk(0))
    ensures Decided(c, r == Finished, total, blocks0)
  {
  }

  /**
   `fdc_read_data`. Success means that the buffer holds exactly the blocks asked for and the block
   number has advanced past them; every READ stays on one track side. The call succeeds exactly if the
   controller can get the chunks across; if seeks and recalibrations work, up to 24 transfer errors are
   survived, and the 25th makes the call fail.
   */
  method FdcReadData(g: Geometry, disk: seq<byte>, buffer: array<byte>, blnr0: nat, blocks0: nat, c: Controller)
    returns (ok: bool, blnr: nat, ghost log: seq<Read>)
    requires Request(g, disk, buffer, blnr0, blocks0)
    modifies buffer
    ensures forall i :: 0 <= i < |log| ==> OneSide(g, log[i])
    ensures ok ==> Reading(g, disk, buffer, blnr0, blnr, Bytes(g, blocks0)) && blnr == blnr0 + blocks0
    ensures Decided(c, ok, Chunks(g, blnr0, blocks0), blocks0)
  {
    blnr, log, ok := blnr0, [], false;
    ghost var total := Chunks(g, blnr0, blocks0);
    PlanSome(g, blnr0, blocks0);
    if !c.seekOk(0) {
      SeekRefused(c, total, blocks0);
      return;
    }
    StartPlan(g, disk, buffer, blnr0, blocks0);
    var l := Loop(Position(blnr0, blocks0, 0, Min(g.sect - blnr0 % g.sect, blocks0)), 0, 0, 0, 1, 0);
    ghost var done: nat := 0;
    while true
      invariant Going(g, disk, buffer, blnr0, blocks0, c, l, done) && (blocks0 == 0 ==> l.cmds == 0)
      invariant forall i :: 0 <= i < |log| ==> OneSide(g, log[i])
      decreases l.p.blocks, 25 - 5 * l.cal - l.rw
    {
      PlanSome(g, l.p.blnr, l.p.blocks);
      if !c.issueOk(l.cmds) {
        IssueRefused(c, l, done, total, blocks0);
        return false, l.p.blnr, log;
      }
      var r, cmd;
      r, l, cmd, done := Turn(g, disk, buffer, blnr0, blocks0, c, l, done);
      log := log + [cmd];
      if r != Again {
        TurnDecides(c, r, total, blocks0);
        return r == Finished, l.p.blnr, log;
      }
    }
  }
}
