/**
 What the erase and protect commands do with a plan, and the rounding of a `start +length` range.
 */
module FlashOps {
  import opened FlashPlan

  const CMD_RET_USAGE := -1

  // ----- flash_sect_roundb

  /** `y` is the last byte of the sector of the known banks that holds `x`. */
  ghost predicate Rounds(f: Flash, x: int, y: int) {
    exists b, i :: In(f, b, i, x) && f[b].End(i) == y
  }

  /** Rounding is a function, rounds up, lands on a sector end, and changes nothing the second time. */
  lemma RoundsOnce(f: Flash, x: int, y: int, z: int)
    requires Rounds(f, x, y)
    ensures x <= y && SectorEnd(f, y) && Rounds(f, y, y)
    ensures Rounds(f, x, z) ==> z == y
    ensures Rounds(f, y, z) ==> z == y
  {
    var b, i :| In(f, b, i, x) && f[b].End(i) == y;
    f[b].SectorBounds(i);
    assert EndsAt(f, b, i, y) && In(f, b, i, y);
    if c, j :| In(f, c, j, x) && f[c].End(j) == z {
      InUnique(f, b, i, c, j, x);
    }
    if c, j :| In(f, c, j, y) && f[c].End(j) == z {
      InUnique(f, b, i, c, j, y);
    }
  }

  /** Only known banks have sectors. */
  predicate OnlyKnown(f: Flash) {
    forall b :: 0 <= b < |f| && !f[b].known ==> f[b].start == []
  }

  /** The sector of a bank that holds `addr`, or none. */
  method FindIn(b: Bank, addr: nat) returns (found: bool, i: nat)
    requires b.Valid()
    ensures found ==> b.Holds(i, addr)
    ensures !found ==> forall j :: !b.Holds(j, addr)
  {
    i, found := 0, false;
    while i < |b.start|
      invariant i <= |b.start| && !found
      invariant forall j :: j < i ==> !b.Holds(j, addr)
    {
      b.SectorBounds(i);
      var end := b.End(i);
      if addr <= end && addr >= b.start[i] {
        found := true;
        return;
      }
      i := i + 1;
    }
  }

  /** Round an address up to the end of its sector; fails exactly if no bank has such a sector. */
  method SectRoundb(f: Flash, addr: nat) returns (rc: int, addr': nat)
    ensures rc == 0 || rc == 1
    ensures rc == 0 ==> exists b, i :: 0 <= b < |f| && f[b].Holds(i, addr) && f[b].End(i) == addr'
    ensures rc == 1 ==> addr' == addr && forall b, i :: 0 <= b < |f| ==> !f[b].Holds(i, addr)
    ensures OnlyKnown(f) ==> (rc == 0 <==> Flashed(f, addr)) && (rc == 0 ==> Rounds(f, addr, addr'))
  {
    addr' := addr;
    var bank := 0;
    while bank < |f|
      invariant 0 <= bank <= |f| && addr' == addr
      invariant forall b, i :: 0 <= b < bank ==> !f[b].Holds(i, addr)
    {
      var found, i := FindIn(f[bank], addr);
      if found {
        var end := f[bank].End(i);
        if addr < end {
          addr' := end;
        }
        assert f[bank].Holds(i, addr) && f[bank].End(i) == addr';
        assert OnlyKnown(f) ==> In(f, bank, i, addr);
        rc := 0;
        return;
      }
      bank := bank + 1;
    }
    rc := 1;
  }

  // ----- flash_sect_erase

  ghost predicate TouchedAt(f: Flash, sectors: set<(int, int)>, x: int) {
    exists b, i :: (b, i) in sectors && In(f, b, i, x)
  }

  /** The sectors touched are exactly those that make up the addresses from `lo` up to `hi`. */
  ghost predicate Touches(f: Flash, sectors: set<(int, int)>, lo: int, hi: int) {
    && (forall b, i :: (b, i) in sectors <==>
         0 <= b < |f| && f[b].known && 0 <= i < |f[b].start| && lo <= f[b].start[i] < hi)
    && (forall x :: lo <= x < hi <==> TouchedAt(f, sectors, x))
  }

  function SectorsOf(s: seq<int>, t: seq<int>, n: nat): set<(int, int)>
    requires n <= |s| == |t|
  {
    set b, i | 0 <= b < n && s[b] <= i <= t[b] && 0 <= s[b] :: (b, i)
  }

  lemma PlanTouches(f: Flash, s: seq<int>, t: seq<int>, lo: int, hi: int)
    requires |s| == |t| == |f| && Block(f, s, t, |f|, lo, hi)
    ensures Touches(f, SectorsOf(s, t, |f|), lo, hi)
  {
    var sectors := SectorsOf(s, t, |f|);
    forall b, i
      ensures (b, i) in sectors <==> 0 <= b < |f| && f[b].known && 0 <= i < |f[b].start| && lo <= f[b].start[i] < hi
    {
      assert (b, i) in sectors <==> Chosen(s, t, b, i);
      if Chosen(s, t, b, i) {
        ChosenKnown(f, s, t, |f|, lo, hi, b, i);
      }
      if 0 <= b < |f| && f[b].known && 0 <= i < |f[b].start| {
        BlockChoice(f, s, t, lo, hi, b, i);
      }
    }
    forall x ensures lo <= x < hi <==> TouchedAt(f, sectors, x) {
      BlockExact(f, s, t, |f|, lo, hi, x);
      if b, i :| b < |f| && Chosen(s, t, b, i) && In(f, b, i, x) {
        assert (b, i) in sectors;
      }
      if b, i :| (b, i) in sectors && In(f, b, i, x) {
        assert Chosen(s, t, b, i);
      }
    }
  }

  /** The driver erases without error in the planned ones of the first `n` banks. */
  predicate Clean(s: seq<int>, driver: seq<int>, n: nat)
    requires n <= |s| == |driver|
  {
    forall b :: 0 <= b < n && s[b] >= 0 ==> driver[b] == 0
  }

  /** Erase bank by bank until the driver fails; `tried` are the sectors handed to it, in the first `n` banks. */
  method EraseBanks(s: seq<int>, t: seq<int>, driver: seq<int>)
    returns (rcode: int, tried: set<(int, int)>, ghost n: nat)
    requires |s| == |t| == |driver|
    ensures n <= |s| && tried == SectorsOf(s, t, n)
    ensures rcode == 0 ==> n == |s| && Clean(s, driver, n)
    ensures rcode != 0 ==> n > 0 && s[n - 1] >= 0 && rcode == driver[n - 1] && Clean(s, driver, n - 1)
  {
    rcode, tried := 0, {};
    var bank := 0;
    while bank < |s| && rcode == 0
      invariant 0 <= bank <= |s| && tried == SectorsOf(s, t, bank)
      invariant rcode == 0 ==> Clean(s, driver, bank)
      invariant rcode != 0 ==> bank > 0 && s[bank - 1] >= 0 && rcode == driver[bank - 1] && Clean(s, driver, bank - 1)
    {
      if s[bank] >= 0 {
        tried := tried + set i | s[bank] <= i <= t[bank] :: (bank, i);
        rcode := driver[bank];
      }
      bank := bank + 1;
    }
    n := bank;
  }

  /** The bank has sectors that start in the block. */
  ghost predicate Involved(f: Flash, b: int, lo: int, hi: int) {
    0 <= b < |f| && f[b].known && exists i :: 0 <= i < |f[b].start| && lo <= f[b].start[i] < hi
  }

  /** The code of the first involved bank from `b` on in which the driver fails, and 0 if there is none. */
  ghost function EraseCode(f: Flash, driver: seq<int>, lo: int, hi: int, b: nat): int
    requires b <= |f| == |driver|
    decreases |f| - b
  {
    if b == |f| then 0
    else if Involved(f, b, lo, hi) && driver[b] != 0 then driver[b]
    else EraseCode(f, driver, lo, hi, b + 1)
  }

  /** The banks up to that one, and all if there is none. */
  ghost function BanksTried(f: Flash, driver: seq<int>, lo: int, hi: int, b: nat): (n: nat)
    requires b <= |f| == |driver|
    ensures n <= |f|
    decreases |f| - b
  {
    if b == |f| then |f|
    else if Involved(f, b, lo, hi) && driver[b] != 0 then b + 1
    else BanksTried(f, driver, lo, hi, b + 1)
  }

  /** The sectors of the first `n` banks that start in the block. */
  ghost function SectorsIn(f: Flash, n: nat, lo: int, hi: int): set<(int, int)>
    requires n <= |f|
  {
    set b, i | 0 <= b < n && 0 <= i < |f[b].start| && f[b].known && lo <= f[b].start[i] < hi :: (b, i)
  }

  /** What erasing the block reports, and the sectors that it hands to the driver. */
  ghost predicate Erases(f: Flash, driver: seq<int>, lo: int, hi: int, rcode: int, tried: set<(int, int)>)
    requires |driver| == |f|
  {
    rcode == EraseCode(f, driver, lo, hi, 0) && tried == SectorsIn(f, BanksTried(f, driver, lo, hi, 0), lo, hi)
  }

  /** The driver fails in bank `b` and in no involved bank before it. */
  ghost predicate FailsFirst(f: Flash, driver: seq<int>, lo: int, hi: int, b: int)
    requires |driver| == |f|
  {
    Involved(f, b, lo, hi) && driver[b] != 0 && forall c :: c < b && Involved(f, c, lo, hi) ==> driver[c] == 0
  }

  lemma {:induction false} CodeZero(f: Flash, driver: seq<int>, lo: int, hi: int, b: nat)
    requires b <= |f| == |driver|
    ensures EraseCode(f, driver, lo, hi, b) == 0 <==>
            forall c :: b <= c < |f| && Involved(f, c, lo, hi) ==> driver[c] == 0
    ensures EraseCode(f, driver, lo, hi, b) == 0 ==> BanksTried(f, driver, lo, hi, b) == |f|
    decreases |f| - b
  {
    if b < |f| && !(Involved(f, b, lo, hi) && driver[b] != 0) {
      CodeZero(f, driver, lo, hi, b + 1);
    }
  }

  lemma {:induction false} CodeFirst(f: Flash, driver: seq<int>, lo: int, hi: int, b: nat, c: nat)
    requires b <= c < |f| == |driver| && Involved(f, c, lo, hi) && driver[c] != 0
    requires forall d :: b <= d < c && Involved(f, d, lo, hi) ==> driver[d] == 0
    ensures EraseCode(f, driver, lo, hi, b) == driver[c] && BanksTried(f, driver, lo, hi, b) == c + 1
    decreases c - b
  {
    if b < c {
      CodeFirst(f, driver, lo, hi, b + 1, c);
    }
  }

  /** The sectors that start in a block of whole sectors make up its addresses. */
  lemma SectorsTouch(f: Flash, lo: int, hi: int)
    requires WholeSectors(f, lo, hi - 1)
    ensures Touches(f, SectorsIn(f, |f|, lo, hi), lo, hi)
  {
    var sectors := SectorsIn(f, |f|, lo, hi);
    forall x ensures lo <= x < hi <==> TouchedAt(f, sectors, x) {
      if lo <= x < hi {
        var b, i := SectorAt(f, lo, hi, x);
      }
      if b, i :| (b, i) in sectors && In(f, b, i, x) {
        SectorWithin(f, lo, hi, b, i, x);
      }
    }
  }

  lemma SectorAt(f: Flash, lo: int, hi: int, x: int) returns (b: int, i: int)
    requires WholeSectors(f, lo, hi - 1) && lo <= x < hi
    ensures In(f, b, i, x) && (b, i) in SectorsIn(f, |f|, lo, hi)
  {
    assert Flashed(f, x);
    b, i :| In(f, b, i, x);
    var c, j :| StartsAt(f, c, j, lo);
    f[c].SectorBounds(j);
    if f[b].start[i] < lo {
      assert In(f, b, i, lo) && In(f, c, j, lo);
      InUnique(f, b, i, c, j, lo);
    }
  }

  lemma SectorWithin(f: Flash, lo: int, hi: int, b: int, i: int, x: int)
    requires WholeSectors(f, lo, hi - 1) && (b, i) in SectorsIn(f, |f|, lo, hi) && In(f, b, i, x)
    ensures lo <= x < hi
  {
    var c, j :| EndsAt(f, c, j, hi - 1);
    f[c].SectorBounds(j);
    if x >= hi {
      assert In(f, b, i, hi - 1) && In(f, c, j, hi - 1);
      InUnique(f, b, i, c, j, hi - 1);
    }
  }

  /**
   Erasing a block of whole sectors reports success exactly if the driver succeeds in every involved bank, and
   then the sectors of the block were erased.
   */
  lemma SuccessMeans(f: Flash, driver: seq<int>, lo: int, hi: int, rcode: int, tried: set<(int, int)>)
    requires |driver| == |f| && WholeSectors(f, lo, hi - 1) && Erases(f, driver, lo, hi, rcode, tried)
    ensures rcode == 0 <==> forall b :: Involved(f, b, lo, hi) ==> driver[b] == 0
    ensures rcode == 0 ==> Touches(f, tried, lo, hi)
  {
    CodeZero(f, driver, lo, hi, 0);
    if rcode == 0 {
      SectorsTouch(f, lo, hi);
    }
  }

  /** Otherwise it reports the code of the first bank that fails, and no bank behind that one was touched. */
  lemma FailureMeans(f: Flash, driver: seq<int>, lo: int, hi: int, rcode: int, tried: set<(int, int)>, b: int)
    requires |driver| == |f| && Erases(f, driver, lo, hi, rcode, tried) && FailsFirst(f, driver, lo, hi, b)
    ensures rcode == driver[b] && tried == SectorsIn(f, b + 1, lo, hi)
  {
    CodeFirst(f, driver, lo, hi, 0, b);
  }

  lemma InvolvedIff(f: Flash, s: seq<int>, t: seq<int>, lo: int, hi: int, b: int)
    requires |s| == |t| == |f| && Block(f, s, t, |f|, lo, hi) && 0 <= b < |f|
    ensures Involved(f, b, lo, hi) <==> s[b] >= 0
  {
    if s[b] >= 0 {
      BlockRuns(f, s, t, |f|, lo, hi, b);
      ChosenKnown(f, s, t, |f|, lo, hi, b, s[b]);
      BlockChoice(f, s, t, lo, hi, b, s[b]);
    }
    if Involved(f, b, lo, hi) {
      var i :| 0 <= i < |f[b].start| && lo <= f[b].start[i] < hi;
      BlockChoice(f, s, t, lo, hi, b, i);
    }
  }

  lemma {:induction false} BlockRuns(f: Flash, s: seq<int>, t: seq<int>, n: nat, lo: int, hi: int, b: int)
    requires |s| == |t| == |f| && n <= |f| && Block(f, s, t, n, lo, hi) && 0 <= b < n && s[b] >= 0
    ensures s[b] <= t[b]
  {
    if b < n - 1 {
      BlockRuns(f, s, t, n - 1, lo, if s[n - 1] < 0 then hi else f[n - 1].start[s[n - 1]], b);
    }
  }

  lemma {:induction false} CodeIs(f: Flash, s: seq<int>, driver: seq<int>, lo: int, hi: int, rcode: int, n: nat, b: nat)
    requires |s| == |driver| == |f| && b <= n <= |f|
    requires forall c :: 0 <= c < |f| ==> (Involved(f, c, lo, hi) <==> s[c] >= 0)
    requires rcode == 0 ==> n == |f| && Clean(s, driver, n)
    requires rcode != 0 ==> n > b && s[n - 1] >= 0 && rcode == driver[n - 1] && Clean(s, driver, n - 1)
    ensures EraseCode(f, driver, lo, hi, b) == rcode && BanksTried(f, driver, lo, hi, b) == n
    decreases |f| - b
  {
    if b < |f| && !(s[b] >= 0 && driver[b] != 0) {
      CodeIs(f, s, driver, lo, hi, rcode, n, b + 1);
    }
  }

  lemma SectorsAre(f: Flash, s: seq<int>, t: seq<int>, n: nat, lo: int, hi: int)
    requires |s| == |t| == |f| && n <= |f| && Block(f, s, t, |f|, lo, hi)
    ensures SectorsOf(s, t, n) == SectorsIn(f, n, lo, hi)
  {
    PlanTouches(f, s, t, lo, hi);
    assert forall b, i :: (b, i) in SectorsOf(s, t, n) <==> (b, i) in SectorsOf(s, t, |f|) && b < n;
  }

  lemma ErasesPlan(f: Flash, s: seq<int>, t: seq<int>, driver: seq<int>, lo: int, hi: int, rcode: int, n: nat)
    requires |s| == |t| == |driver| == |f| && n <= |f| && Block(f, s, t, |f|, lo, hi)
    requires rcode == 0 ==> n == |s| && Clean(s, driver, n)
    requires rcode != 0 ==> n > 0 && s[n - 1] >= 0 && rcode == driver[n - 1] && Clean(s, driver, n - 1)
    ensures Erases(f, driver, lo, hi, rcode, SectorsOf(s, t, n))
  {
    forall b | 0 <= b < |f| ensures Involved(f, b, lo, hi) <==> s[b] >= 0 {
      InvolvedIff(f, s, t, lo, hi, b);
    }
    CodeIs(f, s, driver, lo, hi, rcode, n, 0);
    SectorsAre(f, s, t, n, lo, hi);
  }

  /** Where whole sectors from `first` on end. */
  ghost function WholeEnds(f: Flash, first: int): iset<int> {
    iset last | WholeSectors(f, first, last)
  }

  /**
   Erase a range; `driver` holds the result of erasing in each bank. With a plan in hand, whole sectors from
   `first` on are erased, all of the range exactly if it ends with a sector, and the driver decides; without
   one nothing is erased.
   */
  method SectErase(f: Flash, first: nat, last: nat, driver: seq<int>)
    returns (rcode: int, tried: set<(int, int)>, ghost plan: bool, ghost hi: int)
    requires |driver| == |f|
    ensures plan ==> first < hi && hi - 1 in WholeEnds(f, first) && Erases(f, driver, first, hi, rcode, tried)
    ensures plan && first <= last ==> hi <= last + 1 && (hi == last + 1 <==> SectorEnd(f, last))
    ensures !plan ==> rcode != 0 && tried == {}
    ensures InOrder(f) && WholeSectors(f, first, last) ==> plan
  {
    var sFirst, sLast := new int[|f|], new int[|f|];
    var planned;
    tried := {};
    rcode, planned, hi := FillSectRanges(f, first, last, sFirst, sLast);
    plan := planned != 0 && rcode == 0;
    if planned != 0 && rcode == 0 {
      ghost var n;
      rcode, tried, n := EraseBanks(sFirst[..], sLast[..], driver);
      ErasesPlan(f, sFirst[..], sLast[..], driver, first, hi, rcode, n);
    } else if rcode == 0 {
      rcode := 1;
    }
  }

  function LastByte(start: nat, length: nat): int {
    start + length - 1
  }

  /** The addresses from `start` to `end`, the end of the sector with the last byte, are whole sectors. */
  ghost predicate LengthFits(f: Flash, start: nat, length: nat, end: int) {
    Rounds(f, LastByte(start, length), end) && start < end && WholeSectors(f, start, end)
  }

  /** There is at most one. */
  ghost function FittingEnds(f: Flash, start: nat, length: nat): iset<int> {
    iset end | LengthFits(f, start, length, end)
  }

  lemma FitsOnce(f: Flash, start: nat, length: nat, last: int, end: int)
    requires Rounds(f, LastByte(start, length), last) && LengthFits(f, start, length, end)
    ensures end == last
  {
    RoundsOnce(f, LastByte(start, length), last, end);
  }

  /** The last address of `start +length`: the only one that can fit, and there is one unless this fails. */
  method AddrSpec(f: Flash, start: nat, length: nat) returns (ok: bool, last: nat)
    requires OnlyKnown(f) && start + length > 0
    ensures ok ==> Rounds(f, LastByte(start, length), last) && SectorEnd(f, last)
    ensures FittingEnds(f, start, length) != iset{} ==> ok && start < last
    ensures forall end :: LengthFits(f, start, length, end) ==> ok && end == last
  {
    var rc;
    rc, last := SectRoundb(f, LastByte(start, length));
    ok := rc == 0;
    if ok {
      RoundsOnce(f, LastByte(start, length), last, last);
    }
    forall end | LengthFits(f, start, length, end) ensures ok && end == last {
      if ok {
        FitsOnce(f, start, length, last, end);
      }
    }
  }

  lemma FitsIff(f: Flash, start: nat, length: nat, end: nat)
    requires Rounds(f, LastByte(start, length), end) && start < end
    ensures end in FittingEnds(f, start, length) <==> WholeSectors(f, start, end)
    ensures FittingEnds(f, start, length) != iset{} <==> WholeSectors(f, start, end)
  {
    if e :| e in FittingEnds(f, start, length) {
      FitsOnce(f, start, length, end, e);
    } else {
      assert FittingEnds(f, start, length) == iset{};
    }
  }

  /** The rounded end, if it is behind the start. */
  ghost function RoundedEnds(f: Flash, start: nat, length: nat): iset<int> {
    iset end | Rounds(f, LastByte(start, length), end) && SectorEnd(f, end) && start < end
  }

  method Range(f: Flash, start: nat, length: nat) returns (rcode: int, end: nat)
    requires OnlyKnown(f) && start + length > 0
    ensures rcode == 0 ==> end in RoundedEnds(f, start, length)
    ensures rcode != 0 ==> FittingEnds(f, start, length) == iset{}
  {
    var ok;
    ok, end := AddrSpec(f, start, length);
    rcode := if !ok then 1 else if start >= end then CMD_RET_USAGE else 0;
  }

  lemma FitsPlanned(f: Flash, start: nat, length: nat, end: nat, last: int)
    requires end in RoundedEnds(f, start, length) && last in WholeEnds(f, start)
    requires last <= end && (last == end <==> SectorEnd(f, end))
    ensures last in FittingEnds(f, start, length)
  {
    assert last == end;
  }

  /** The end is rounded and behind the start: erase up to it. */
  method EraseRounded(f: Flash, start: nat, ghost length: nat, end: nat, driver: seq<int>)
    returns (rcode: int, tried: set<(int, int)>, ghost plan: bool, ghost hi: int)
    requires |driver| == |f| && start + length > 0 && end in RoundedEnds(f, start, length)
    ensures plan ==> hi - 1 in FittingEnds(f, start, length) && Erases(f, driver, start, hi, rcode, tried)
    ensures !plan ==> rcode != 0 && tried == {}
    ensures InOrder(f) ==> (plan <==> FittingEnds(f, start, length) != iset{})
  {
    rcode, tried, plan, hi := SectErase(f, start, end, driver);
    if plan {
      FitsPlanned(f, start, length, end, hi - 1);
    }
    FitsIff(f, start, length, end);
  }

  /**
   `erase start +length`: with a plan in hand, exactly the addresses from `start` to the rounded end are erased
   and the driver decides; without one nothing is. For whole sectors of banks in order there is a plan.
   */
  method EraseLength(f: Flash, start: nat, length: nat, driver: seq<int>)
    returns (rcode: int, tried: set<(int, int)>, ghost plan: bool, ghost hi: int)
    requires |driver| == |f| && OnlyKnown(f) && start + length > 0
    ensures plan ==> hi - 1 in FittingEnds(f, start, length) && Erases(f, driver, start, hi, rcode, tried)
    ensures !plan ==> rcode != 0 && tried == {}
    ensures InOrder(f) ==> (plan <==> FittingEnds(f, start, length) != iset{})
  {
    var end;
    rcode, end := Range(f, start, length);
    tried, plan, hi := {}, false, 0;
    if rcode == 0 {
      rcode, tried, plan, hi := EraseRounded(f, start, length, end, driver);
    }
  }

  // ----- flash_sect_protect

  class Chips {
    const f: Flash
    var protect: seq<seq<int>> // one flag for each sector of each bank

    constructor (f: Flash)
      ensures this.f == f && Valid()
    {
      this.f := f;
      protect := seq(|f|, b requires 0 <= b < |f| => seq(|f[b].start|, i => 0));
    }

    ghost predicate Valid()
      reads this
    {
      |protect| == |f| && forall b :: 0 <= b < |f| ==> |protect[b]| == |f[b].start|
    }

    /** Set the flags of sectors `s` to `t` of one bank. */
    method ProtectBank(bank: nat, s: nat, t: nat, p: int)
      requires Valid() && bank < |f| && s <= t < |f[bank].start|
      modifies this
      ensures Valid()
      ensures forall b, i :: 0 <= b < |f| && 0 <= i < |f[b].start| ==>
                protect[b][i] == if b == bank && s <= i <= t then p else old(protect[b][i])
    {
      var flags := protect[bank];
      for i := s to t + 1
        invariant |flags| == |f[bank].start|
        invariant forall j :: 0 <= j < |flags| ==> flags[j] == if s <= j < i then p else old(protect[bank][j])
      {
        flags := flags[i := p];
      }
      protect := protect[bank := flags];
    }

    /**
     Success sets the flag of exactly the sectors that start in the block, and leaves every other flag;
     the block is the whole range exactly if the range ends with a sector. Failure changes nothing.
     */
    method SectProtect(p: int, first: nat, last: nat) returns (rcode: int, ghost hi: int)
      requires Valid()
      modifies this
      ensures Valid()
      ensures rcode == 0 ==> first < hi && WholeSectors(f, first, hi - 1)
      ensures rcode == 0 && first <= last ==> hi <= last + 1 && (hi == last + 1 <==> SectorEnd(f, last))
      ensures rcode == 0 ==> forall b, i :: 0 <= b < |f| && 0 <= i < |f[b].start| ==>
                protect[b][i] == if f[b].known && first <= f[b].start[i] < hi then p else old(protect[b][i])
      ensures rcode != 0 ==> protect == old(protect)
      ensures InOrder(f) && WholeSectors(f, first, last) ==> rcode == 0
    {
      var sFirst, sLast := new int[|f|], new int[|f|];
      var planned;
      rcode, planned, hi := FillSectRanges(f, first, last, sFirst, sLast);
      if rcode != 0 {
        return;
      }
      if planned == 0 {
        rcode := 1;
        return;
      }
      ghost var s, t := sFirst[..], sLast[..];
      var bank := 0;
      while bank < |f|
        invariant 0 <= bank <= |f| && Valid() && s == sFirst[..] && t == sLast[..]
        invariant forall b, i :: 0 <= b < |f| && 0 <= i < |f[b].start| ==>
                    protect[b][i] == if b < bank && f[b].known && Chosen(s, t, b, i) then p else old(protect[b][i])
      {
        if f[bank].known && sFirst[bank] >= 0 && sFirst[bank] <= sLast[bank] {
          ChosenKnown(f, s, t, |f|, first, hi, bank, sLast[bank]);
          ProtectBank(bank, sFirst[bank], sLast[bank], p);
        }
        bank := bank + 1;
      }
      forall b, i | 0 <= b < |f| && f[b].known && 0 <= i < |f[b].start|
        ensures Chosen(s, t, b, i) <==> first <= f[b].start[i] < hi
      {
        BlockChoice(f, s, t, first, hi, b, i);
      }
    }
  }
}
