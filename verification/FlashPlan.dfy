/**
 Planning an erase or protect command on NOR flash: an address range becomes one range of sectors for
 each bank. Addresses are naturals, so the address after the last byte of a bank exists.
 */
module FlashPlan {
  /** A bank: where it begins, its size in bytes, and the start address of each sector. */
  datatype Bank = Bank(known: bool, base: nat, size: nat, start: seq<nat>) {

    /** Sectors ascend from the base and none is empty. */
    predicate Valid() {
      && base + size > 0
      && (start != [] ==> start[0] == base && start[|start| - 1] < base + size)
      && forall i :: 0 < i < |start| ==> start[i - 1] < start[i]
    }

    /** The last address of the bank. */
    function BankEnd(): int
      requires Valid()
    {
      base + size - 1
    }

    /** The last address of sector `i`. */
    function End(i: nat): int
      requires Valid() && i < |start|
    {
      if i == |start| - 1 then BankEnd()
      else
        assert start[i + 1 - 1] < start[i + 1];
        start[i + 1] - 1
    }

    predicate Holds(i: int, x: int)
      requires Valid()
    {
      0 <= i < |start| && start[i] <= x <= End(i)
    }

    lemma {:induction false} Ascending(i: nat, j: nat)
      requires Valid() && i < j < |start|
      ensures start[i] < start[j] && End(i) < start[j]
      decreases j
    {
      if i < j - 1 {
        Ascending(i, j - 1);
      }
    }

    lemma SectorBounds(i: nat)
      requires Valid() && i < |start|
      ensures base <= start[i] <= End(i) <= BankEnd()
    {
      if i > 0 {
        Ascending(0, i);
      }
      if i < |start| - 1 {
        Ascending(i, |start| - 1);
        if i + 1 < |start| - 1 {
          Ascending(i + 1, |start| - 1);
        }
      }
    }

    /** Every address of a bank with sectors is in one of them. */
    lemma {:induction false} FindSector(x: int, k: nat) returns (i: nat)
      requires Valid() && k < |start| && base <= x <= End(k)
      ensures Holds(i, x)
      decreases k
    {
      if start[k] <= x {
        i := k;
      } else {
        i := FindSector(x, k - 1);
      }
    }
  }

  type Flash = banks: seq<Bank> | ValidFlash(banks) witness []

  /** Valid banks, of which those that are known and have sectors do not overlap. */
  predicate ValidFlash(banks: seq<Bank>) {
    && (forall b :: 0 <= b < |banks| ==> banks[b].Valid())
    && (forall b, c :: 0 <= b < c < |banks| && Used(banks[b]) && Used(banks[c]) ==> Apart(banks[b], banks[c]))
  }

  predicate Used(b: Bank) {
    b.known && b.start != []
  }

  predicate Apart(b: Bank, c: Bank) {
    b.base + b.size <= c.base || c.base + c.size <= b.base
  }

  /** Address `x` is in sector `i` of the known bank `b`. */
  predicate In(f: Flash, b: int, i: int, x: int) {
    0 <= b < |f| && f[b].known && f[b].Holds(i, x)
  }

  /** An address is in at most one sector of the known banks. */
  lemma InUnique(f: Flash, b: int, i: int, c: int, j: int, x: int)
    requires In(f, b, i, x) && In(f, c, j, x)
    ensures b == c && i == j
  {
    f[b].SectorBounds(i);
    f[c].SectorBounds(j);
    if b == c && i < j {
      f[b].Ascending(i, j);
    } else if b == c && j < i {
      f[b].Ascending(j, i);
    }
  }

  predicate StartsAt(f: Flash, b: int, i: int, x: int) {
    In(f, b, i, x) && f[b].start[i] == x
  }

  predicate EndsAt(f: Flash, b: int, i: int, x: int) {
    In(f, b, i, x) && f[b].End(i) == x
  }

  // ----- the plan

  /** The sectors chosen in one bank; none if `first` is negative. */
  predicate Chosen(sFirst: seq<int>, sLast: seq<int>, b: int, i: int) {
    0 <= b < |sFirst| && b < |sLast| && 0 <= sFirst[b] <= i <= sLast[b]
  }

  /** The sectors chosen in the first `n` banks form one gap-free block from `lo` up to, not including, `hi`. */
  predicate Block(f: Flash, sFirst: seq<int>, sLast: seq<int>, n: nat, lo: int, hi: int)
    requires |sFirst| == |sLast| == |f| && n <= |f|
  {
    if n == 0 then lo == hi
    else if sFirst[n - 1] < 0 then Block(f, sFirst, sLast, n - 1, lo, hi)
    else
      && f[n - 1].known && sFirst[n - 1] <= sLast[n - 1] < |f[n - 1].start|
      && hi == f[n - 1].End(sLast[n - 1]) + 1
      && Block(f, sFirst, sLast, n - 1, lo, f[n - 1].start[sFirst[n - 1]])
  }

  function CountChosen(sFirst: seq<int>, sLast: seq<int>, n: nat): int
    requires n <= |sFirst| == |sLast|
  {
    if n == 0 then 0
    else CountChosen(sFirst, sLast, n - 1) + if sFirst[n - 1] < 0 then 0 else sLast[n - 1] - sFirst[n - 1] + 1
  }

  /** A block is not negative, and it is empty exactly if no sector is chosen. */
  lemma {:induction false} BlockSize(f: Flash, sFirst: seq<int>, sLast: seq<int>, n: nat, lo: int, hi: int)
    requires |sFirst| == |sLast| == |f| && n <= |f| && Block(f, sFirst, sLast, n, lo, hi)
    ensures lo <= hi && 0 <= CountChosen(sFirst, sLast, n)
    ensures lo == hi <==> CountChosen(sFirst, sLast, n) == 0
  {
    if n > 0 {
      if sFirst[n - 1] < 0 {
        BlockSize(f, sFirst, sLast, n - 1, lo, hi);
      } else {
        var b, i, j := f[n - 1], sFirst[n - 1], sLast[n - 1];
        BlockSize(f, sFirst, sLast, n - 1, lo, b.start[i]);
        b.SectorBounds(j);
        if i < j {
          b.Ascending(i, j);
        }
      }
    }
  }

  /** Inside a block, every address is in a chosen sector; outside, none is. */
  lemma {:induction false} BlockExact(f: Flash, sFirst: seq<int>, sLast: seq<int>, n: nat, lo: int, hi: int, x: int)
    requires |sFirst| == |sLast| == |f| && n <= |f| && Block(f, sFirst, sLast, n, lo, hi)
    ensures lo <= x < hi <==> exists b, i :: b < n && Chosen(sFirst, sLast, b, i) && In(f, b, i, x)
  {
    if n > 0 {
      if sFirst[n - 1] < 0 {
        BlockExact(f, sFirst, sLast, n - 1, lo, hi, x);
      } else {
        var b, s, t := f[n - 1], sFirst[n - 1], sLast[n - 1];
        BlockExact(f, sFirst, sLast, n - 1, lo, b.start[s], x);
        BlockSize(f, sFirst, sLast, n - 1, lo, b.start[s]);
        if b.start[s] <= x < hi {
          var i := ChosenSector(b, s, t, x);
          assert Chosen(sFirst, sLast, n - 1, i) && In(f, n - 1, i, x);
        }
        if c, i :| c < n && Chosen(sFirst, sLast, c, i) && In(f, c, i, x) {
          if c == n - 1 {
            SectorInside(b, s, t, i, x);
          } else {
            b.SectorBounds(t);
            SectorInside(b, s, t, t, b.start[t]);
          }
        }
      }
    }
  }

  lemma SectorInside(b: Bank, s: nat, t: nat, i: nat, x: int)
    requires b.Valid() && s <= i <= t < |b.start| && b.start[i] <= x <= b.End(i)
    ensures b.start[s] <= x <= b.End(t)
  {
    if s < i {
      b.Ascending(s, i);
    }
    if i < t {
      b.Ascending(i, t);
    }
    b.SectorBounds(t);
  }

  lemma {:induction false} ChosenSector(b: Bank, s: nat, t: nat, x: int) returns (i: nat)
    requires b.Valid() && s <= t < |b.start| && b.start[s] <= x <= b.End(t)
    ensures s <= i <= t && b.Holds(i, x)
    decreases t
  {
    if b.start[t] <= x {
      i := t;
    } else {
      i := ChosenSector(b, s, t - 1, x);
    }
  }

  // ----- flash_fill_sect_ranges

  /** The sectors of one bank that start at `first` and end at `last`, or -1. */
  method ScanBank(b: Bank, first: nat, last: nat) returns (s: int, t: int)
    requires b.Valid() && first <= last
    ensures -1 <= s < |b.start| && -1 <= t < |b.start|
    ensures s >= 0 ==> b.start[s] == first
    ensures s < 0 ==> forall i :: 0 <= i < |b.start| ==> b.start[i] != first
    ensures t >= 0 ==> b.End(t) == last
    ensures t < 0 ==> forall i :: 0 <= i < |b.start| ==> b.End(i) != last
  {
    s, t := -1, -1;
    var sect := 0;
    while sect < |b.start|
      invariant 0 <= sect <= |b.start| && -1 <= s < sect && -1 <= t < sect
      invariant s >= 0 ==> b.start[s] == first
      invariant s < 0 ==> forall i :: 0 <= i < sect ==> b.start[i] != first
      invariant t >= 0 ==> b.End(t) == last
      invariant t < 0 ==> forall i :: 0 <= i < sect ==> b.End(i) != last
    {
      b.SectorBounds(sect);
      var end := if sect == |b.start| - 1 then b.base + b.size - 1 else b.start[sect + 1] - 1;
      if !(first > end) && !(last < b.start[sect]) {
        if first == b.start[sect] {
          s := sect;
        }
        if last == end {
          t := sect;
        }
      }
      sect := sect + 1;
    }
  }

  /** Address `x` is in a known bank. */
  ghost predicate Flashed(f: Flash, x: int) {
    exists b, i :: In(f, b, i, x)
  }

  /** Some known bank has a sector that starts at `x`. */
  ghost predicate SectorStart(f: Flash, x: int) {
    exists b, i :: StartsAt(f, b, i, x)
  }

  /** Some known bank has a sector that ends at `x`. */
  ghost predicate SectorEnd(f: Flash, x: int) {
    exists b, i :: EndsAt(f, b, i, x)
  }

  /** Known banks have sectors and come in the order of their addresses. */
  predicate InOrder(f: Flash) {
    && (forall b :: 0 <= b < |f| && f[b].known ==> Used(f[b]))
    && forall b, c :: 0 <= b < c < |f| && Used(f[b]) && Used(f[c]) ==> f[b].base + f[b].size <= f[c].base
  }

  /** The range consists of whole sectors of known banks, without a hole. */
  ghost predicate WholeSectors(f: Flash, first: int, last: int) {
    && first <= last && SectorStart(f, first) && SectorEnd(f, last)
    && forall x :: first <= x <= last ==> Flashed(f, x)
  }

  predicate StartsIn(b: Bank, x: int) {
    exists i :: 0 <= i < |b.start| && b.start[i] == x
  }

  predicate EndsIn(b: Bank, x: int, from: int)
    requires b.Valid()
  {
    exists i :: 0 <= i < |b.start| && b.start[i] >= from && b.End(i) == x
  }

  /** The bank holds part of the range, but not from a sector start to a sector end or its own end. */
  predicate Misfit(b: Bank, first: nat, last: nat)
    requires b.Valid()
  {
    if StartsIn(b, first) then last <= b.BankEnd() && !EndsIn(b, last, first)
    else b.base <= first < b.BankEnd() || EndsIn(b, last, 0)
  }

  lemma EndUnique(b: Bank, i: nat, j: nat)
    requires b.Valid() && i < |b.start| && j < |b.start| && b.End(i) == b.End(j)
    ensures i == j
  {
    b.SectorBounds(i);
    b.SectorBounds(j);
    if i < j {
      b.Ascending(i, j);
    } else if j < i {
      b.Ascending(j, i);
    }
  }

  /** A bank's entry of the plan: none, or a run from `first` to just before `next`. */
  predicate BankPlan(b: Bank, first: nat, last: nat, s: int, t: int, next: nat)
    requires b.Valid()
  {
    if s < 0 then next == first && !StartsIn(b, first) && !EndsIn(b, last, 0)
    else && s <= t < |b.start| && b.start[s] == first < next == b.End(t) + 1
         && (next == last + 1 || (next == b.BankEnd() + 1 && next <= last))
  }

  /** A sector end before the sector that starts at `first` does not end the range. */
  lemma TooEarly(b: Bank, s: nat, t: nat)
    requires b.Valid() && t < s < |b.start|
    ensures !EndsIn(b, b.End(t), b.start[s])
  {
    forall i | 0 <= i < |b.start| && b.End(i) == b.End(t) ensures b.start[i] < b.start[s] {
      EndUnique(b, i, t);
      b.Ascending(t, s);
    }
  }

  /** The scan decides whether the range starts and ends with a sector of the bank. */
  lemma Scanned(b: Bank, first: nat, last: nat, s: int, t: int)
    requires b.Valid() && -1 <= s < |b.start| && -1 <= t < |b.start|
    requires if s >= 0 then b.start[s] == first else forall i :: 0 <= i < |b.start| ==> b.start[i] != first
    requires if t >= 0 then b.End(t) == last else forall i :: 0 <= i < |b.start| ==> b.End(i) != last
    ensures StartsIn(b, first) == (s >= 0) && EndsIn(b, last, 0) == (t >= 0)
    ensures s >= 0 ==> EndsIn(b, last, first) == (t >= s)
  {
    if 0 <= t < s {
      TooEarly(b, s, t);
    } else if 0 <= s < t {
      b.Ascending(s, t);
    }
  }

  /** One known bank: it fails exactly for a misfit. */
  method PlanBank(b: Bank, first: nat, last: nat) returns (ok: bool, s: int, t: int, next: nat)
    requires b.Valid() && first <= last
    ensures ok == !Misfit(b, first, last) && -1 <= s
    ensures ok ==> BankPlan(b, first, last, s, t, next)
  {
    s, t := ScanBank(b, first, last);
    Scanned(b, first, last, s, t);
    ok, next := true, first;
    if s >= 0 {
      b.SectorBounds(s);
      if t < 0 {
        if last > b.base + b.size - 1 {
          t := |b.start| - 1;
        } else {
          return false, s, t, next;
        }
      }
      b.SectorBounds(t);
      if t < s {
        return false, s, t, next;
      }
      SectorInside(b, s, t, s, first);
      next := if t == |b.start| - 1 then b.base + b.size else b.start[t + 1];
    } else if first >= b.base && first < b.base + b.size - 1 {
      ok := false;
    } else if t >= 0 {
      ok := false;
    }
  }

  // ----- all banks

  lemma {:induction false} BlockFrame(f: Flash, s: seq<int>, t: seq<int>,
                                      s': seq<int>, t': seq<int>, n: nat, lo: int, hi: int)
    requires |s| == |t| == |s'| == |t'| == |f| && n <= |f|
    requires forall i :: 0 <= i < n ==> s[i] == s'[i] && t[i] == t'[i]
    ensures Block(f, s, t, n, lo, hi) == Block(f, s', t', n, lo, hi)
    ensures CountChosen(s, t, n) == CountChosen(s', t', n)
  {
    if n > 0 {
      BlockFrame(f, s, t, s', t', n - 1, lo, hi);
      if 0 <= s[n - 1] < |f[n - 1].start| {
        BlockFrame(f, s, t, s', t', n - 1, lo, f[n - 1].start[s[n - 1]]);
      }
    }
  }

  lemma {:induction false} BlockRest(f: Flash, s: seq<int>, t: seq<int>, n: nat, m: nat, lo: int, hi: int)
    requires |s| == |t| == |f| && n <= m <= |f| && Block(f, s, t, n, lo, hi)
    requires forall i :: n <= i < m ==> s[i] < 0
    ensures Block(f, s, t, m, lo, hi) && CountChosen(s, t, m) == CountChosen(s, t, n)
    decreases m
  {
    if n < m {
      BlockRest(f, s, t, n, m - 1, lo, hi);
    }
  }

  /** The plan with the entry of one more bank. */
  lemma BlockStep(f: Flash, s: seq<int>, t: seq<int>, b: nat, lo: int, first: nat, last: nat, i: int, j: int, next: nat)
    requires |s| == |t| == |f| && b < |f| && Block(f, s, t, b, lo, first)
    requires if f[b].known then BankPlan(f[b], first, last, i, j, next) else i == -1 && next == first
    ensures Block(f, s[b := i], t[b := j], b + 1, lo, next)
    ensures CountChosen(s[b := i], t[b := j], b + 1) == CountChosen(s, t, b) + if i < 0 then 0 else j - i + 1
  {
    BlockFrame(f, s, t, s[b := i], t[b := j], b, lo, first);
  }

  /** If the range ends with a sector of a bank that has been planned without failure, nothing is left. */
  lemma EndReached(f: Flash, b: nat, i: int, first: nat, last: nat, s: int, t: int, next: nat)
    requires b < |f| && first <= last && EndsAt(f, b, i, last) && BankPlan(f[b], first, last, s, t, next)
    ensures next == last + 1
  {
    f[b].SectorBounds(i);
    assert EndsIn(f[b], last, 0);
  }

  /** With banks in order, the next bank to plan is not a misfit, and the next sector stays ahead. */
  lemma InOrderStep(f: Flash, b: nat, c: int, j: int, first: nat, last: nat)
    requires InOrder(f) && b < |f| && Used(f[b]) && b <= c && StartsAt(f, c, j, first)
    requires first <= last && SectorEnd(f, last)
    ensures !Misfit(f[b], first, last) && (b < c ==> !StartsIn(f[b], first))
  {
    f[c].SectorBounds(j);
    var e, k :| EndsAt(f, e, k, last);
    f[e].SectorBounds(k);
    if b == c {
      assert StartsIn(f[b], first);
      if last <= f[b].BankEnd() {
        SameBank(f, b, j, e, k, first, last);
      }
    } else {
      forall i | 0 <= i < |f[b].start| ensures f[b].start[i] < first && f[b].End(i) < first {
        f[b].SectorBounds(i);
      }
    }
  }

  /** A sector end inside a bank, at or after one of its sector starts, is an end of that bank. */
  lemma SameBank(f: Flash, b: nat, j: int, e: int, k: int, first: nat, last: nat)
    requires StartsAt(f, b, j, first) && EndsAt(f, e, k, last) && first <= last <= f[b].BankEnd()
    ensures EndsIn(f[b], last, first)
  {
    f[b].SectorBounds(j);
    var i := f[b].FindSector(last, |f[b].start| - 1);
    InUnique(f, b, i, e, k, last);
    if i < j {
      f[b].Ascending(i, j);
    } else if j < i {
      f[b].Ascending(j, i);
    }
  }

  /** After a whole bank the range goes on with the first sector of a later bank. */
  lemma NextBank(f: Flash, b: nat, next: nat) returns (c: int, j: int)
    requires InOrder(f) && b < |f| && Used(f[b]) && next == f[b].BankEnd() + 1 && Flashed(f, next)
    ensures b < c && StartsAt(f, c, j, next)
  {
    c, j :| In(f, c, j, next);
    f[c].SectorBounds(j);
  }

  lemma {:induction false} BlockEdges(f: Flash, s: seq<int>, t: seq<int>, n: nat, lo: int, hi: int)
    requires |s| == |t| == |f| && n <= |f| && Block(f, s, t, n, lo, hi) && lo < hi
    ensures SectorStart(f, lo) && SectorEnd(f, hi - 1)
  {
    if s[n - 1] < 0 {
      BlockEdges(f, s, t, n - 1, lo, hi);
    } else {
      var b, i, j := f[n - 1], s[n - 1], t[n - 1];
      b.SectorBounds(i);
      b.SectorBounds(j);
      assert EndsAt(f, n - 1, j, hi - 1);
      BlockSize(f, s, t, n - 1, lo, b.start[i]);
      if lo < b.start[i] {
        BlockEdges(f, s, t, n - 1, lo, b.start[i]);
      } else {
        assert StartsAt(f, n - 1, i, lo);
      }
    }
  }

  /** A block that is not empty consists of whole sectors. */
  lemma BlockWhole(f: Flash, s: seq<int>, t: seq<int>, lo: int, hi: int)
    requires |s| == |t| == |f| && Block(f, s, t, |f|, lo, hi) && lo < hi
    ensures WholeSectors(f, lo, hi - 1)
  {
    BlockEdges(f, s, t, |f|, lo, hi);
    forall x | lo <= x <= hi - 1 ensures Flashed(f, x) {
      BlockExact(f, s, t, |f|, lo, hi, x);
    }
  }

  /** In a block, the chosen sectors are those that start in it. */
  lemma BlockChoice(f: Flash, s: seq<int>, t: seq<int>, lo: int, hi: int, b: int, i: int)
    requires |s| == |t| == |f| && Block(f, s, t, |f|, lo, hi)
    requires 0 <= b < |f| && f[b].known && 0 <= i < |f[b].start|
    ensures Chosen(s, t, b, i) <==> lo <= f[b].start[i] < hi
  {
    var x := f[b].start[i];
    f[b].SectorBounds(i);
    assert In(f, b, i, x);
    BlockExact(f, s, t, |f|, lo, hi, x);
    if c, j :| c < |f| && Chosen(s, t, c, j) && In(f, c, j, x) {
      InUnique(f, b, i, c, j, x);
    }
  }

  lemma {:induction false} ChosenKnown(f: Flash, s: seq<int>, t: seq<int>, n: nat, lo: int, hi: int, b: int, i: int)
    requires |s| == |t| == |f| && n <= |f| && Block(f, s, t, n, lo, hi) && b < n && Chosen(s, t, b, i)
    ensures f[b].known && i < |f[b].start|
  {
    if b < n - 1 {
      ChosenKnown(f, s, t, n - 1, lo, if s[n - 1] < 0 then hi else f[n - 1].start[s[n - 1]], b, i);
    }
  }

  /** No bank before `bank` has a sector that ends the range. */
  ghost predicate Ahead(f: Flash, bank: int, last: nat) {
    forall b, i :: EndsAt(f, b, i, last) ==> bank <= b
  }

  /** The range goes on with a sector of `bank` or a later one. */
  ghost predicate Ready(f: Flash, bank: int, addr: nat) {
    exists b, i :: bank <= b && StartsAt(f, b, i, addr)
  }

  lemma AheadStep(f: Flash, bank: nat, addr: nat, last: nat, s: int, t: int, next: nat)
    requires bank < |f| && addr <= last && Ahead(f, bank, last)
    requires f[bank].known ==> BankPlan(f[bank], addr, last, s, t, next) && next <= last
    ensures Ahead(f, bank + 1, last)
  {
    forall b, i | EndsAt(f, b, i, last) ensures bank + 1 <= b {
      if b == bank {
        EndReached(f, bank, i, addr, last, s, t, next);
      }
    }
  }

  lemma ReadyFits(f: Flash, bank: nat, first: nat, addr: nat, last: nat)
    requires bank < |f| && first <= addr <= last && InOrder(f) && WholeSectors(f, first, last) && Ready(f, bank, addr)
    ensures f[bank].known ==> !Misfit(f[bank], addr, last)
  {
    if f[bank].known {
      var c, j :| bank <= c && StartsAt(f, c, j, addr);
      InOrderStep(f, bank, c, j, addr, last);
    }
  }

  lemma ReadyStep(f: Flash, bank: nat, first: nat, addr: nat, last: nat, s: int, t: int, next: nat)
    requires bank < |f| && first <= addr <= last && InOrder(f) && WholeSectors(f, first, last) && Ready(f, bank, addr)
    requires if f[bank].known then BankPlan(f[bank], addr, last, s, t, next) else next == addr
    ensures next <= last ==> Ready(f, bank + 1, next)
  {
    var c, j :| bank <= c && StartsAt(f, c, j, addr);
    if f[bank].known && s >= 0 && next <= last {
      f[bank].SectorBounds(t);
      assert Flashed(f, next);
      c, j := NextBank(f, bank, next);
    } else if c == bank && f[bank].known {
      assert StartsIn(f[bank], addr);
    }
  }

  /** One turn of the loop: unknown banks are passed over. */
  method NextRange(f: Flash, bank: nat, first: nat, addr: nat, last: nat, ghost whole: bool)
    returns (ok: bool, s: int, t: int, next: nat)
    requires bank < |f| && first <= addr <= last && Ahead(f, bank, last)
    requires whole ==> InOrder(f) && WholeSectors(f, first, last) && Ready(f, bank, addr)
    ensures ok ==> if f[bank].known then BankPlan(f[bank], addr, last, s, t, next) else s == -1 && next == addr
    ensures ok && next <= last ==> Ahead(f, bank + 1, last) && (whole ==> Ready(f, bank + 1, next))
    ensures whole ==> ok
  {
    ok, s, t, next := true, -1, -1, addr;
    if f[bank].known {
      if whole {
        ReadyFits(f, bank, first, addr, last);
      }
      ok, s, t, next := PlanBank(f[bank], addr, last);
    }
    if ok && next <= last {
      AheadStep(f, bank, addr, last, s, t, next);
      if whole {
        ReadyStep(f, bank, first, addr, last, s, t, next);
      }
    }
  }

  /** The loop over the banks, on empty entries. */
  method PlanBanks(f: Flash, first: nat, last: nat, sFirst: array<int>, sLast: array<int>)
    returns (rcode: int, count: int, hi: nat)
    requires sFirst.Length == sLast.Length == |f| && sFirst != sLast && forall i :: 0 <= i < |f| ==> sFirst[i] == -1
    modifies sFirst, sLast
    ensures rcode == 0 ==> Block(f, sFirst[..], sLast[..], |f|, first, hi)
    ensures rcode == 0 ==> count == CountChosen(sFirst[..], sLast[..], |f|) && (first <= last ==> hi <= last + 1)
    ensures rcode == 0 && first <= last && SectorEnd(f, last) ==> hi == last + 1
    ensures InOrder(f) && WholeSectors(f, first, last) ==> rcode == 0
  {
    rcode, count, hi := 0, 0, first;
    ghost var whole := InOrder(f) && WholeSectors(f, first, last);
    var bank := 0;
    while bank < |f| && hi <= last
      invariant 0 <= bank <= |f| && first <= hi && (first <= last ==> hi <= last + 1)
      invariant forall i :: bank <= i < |f| ==> sFirst[i] == -1
      invariant Block(f, sFirst[..], sLast[..], bank, first, hi) && count == CountChosen(sFirst[..], sLast[..], bank)
      invariant hi <= last ==> Ahead(f, bank, last) && (whole ==> Ready(f, bank, hi))
    {
      var ok, s, t, next := NextRange(f, bank, first, hi, last, whole);
      ghost var s0, t0 := sFirst[..], sLast[..];
      sFirst[bank], sLast[bank] := s, t;
      if !ok {
        rcode := 1;
        return;
      }
      BlockStep(f, s0, t0, bank, first, hi, last, s, t, next);
      assert sFirst[..] == s0[bank := s] && sLast[..] == t0[bank := t];
      if s >= 0 {
        hi := next;
        count := count + t - s + 1;
      }
      bank := bank + 1;
    }
    BlockRest(f, sFirst[..], sLast[..], bank, |f|, first, hi);
  }

  /**
   `flash_fill_sect_ranges`. A zero return means that the chosen sectors form one gap-free block from
   `first` up to `hi` that stays inside the range, and that the block is the whole range exactly if the
   range ends with a sector. With banks in order, whole sectors never fail.
   */
  method FillSectRanges(f: Flash, first: nat, last: nat, sFirst: array<int>, sLast: array<int>)
    returns (rcode: int, count: int, ghost hi: int)
    requires sFirst.Length == sLast.Length == |f| && sFirst != sLast
    modifies sFirst, sLast
    ensures rcode == 0 ==> Block(f, sFirst[..], sLast[..], |f|, first, hi)
    ensures rcode == 0 ==> count == CountChosen(sFirst[..], sLast[..], |f|) >= 0 && (count > 0 <==> first < hi)
    ensures rcode == 0 && count > 0 ==> WholeSectors(f, first, hi - 1)
    ensures rcode == 0 && first <= last ==> hi <= last + 1 && (hi == last + 1 <==> SectorEnd(f, last))
    ensures InOrder(f) && WholeSectors(f, first, last) ==> rcode == 0
  {
    for b := 0 to |f|
      invariant forall i :: 0 <= i < b ==> sFirst[i] == -1 && sLast[i] == -1
    {
      sFirst[b], sLast[b] := -1, -1;
    }
    rcode, count, hi := PlanBanks(f, first, last, sFirst, sLast);
    if rcode == 0 {
      BlockSize(f, sFirst[..], sLast[..], |f|, first, hi);
      if first < hi {
        BlockWhole(f, sFirst[..], sLast[..], first, hi);
      }
    }
  }
}
