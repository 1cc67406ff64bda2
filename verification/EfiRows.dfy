/**
 The rows that `efi mem` prints: they tile the address space exactly for maps whose entries are apart.
 */
module EfiRows {
  import opened Arithmetic
  import opened EfiSort
  import opened EfiMap
  import opened EfiGroups
  import opened EfiTable

  /** The rows follow each other without overlap or hole from `from` to `to`. */
  predicate Tiles(rows: seq<Row>, from: int, to: int) {
    if rows == [] then from == to
    else match rows[0]
      case Gap(f, size) => f == from && size > 0 && Tiles(rows[1..], from + size, to)
      case Region(_, d) => d.start == from && Tiles(rows[1..], from + Bytes(d), to)
  }

  /** Nothing in the table ends it early or is skipped. */
  predicate Printable(s: seq<Desc>, skipBs: bool) {
    forall i :: 0 <= i < |s| ==> s[i].kind != EFI_TABLE_END && !(skipBs && IsBootServices(s[i].kind))
  }

  ghost function EndOf(s: seq<Desc>, from: int): int {
    if s == [] then from else s[|s| - 1].start + Bytes(s[|s| - 1])
  }

  // ----- rows of a table

  /** From `i` on, with the last row ended at `addr`, every entry starts where the one before ended or later. */
  predicate ApartFrom(s: seq<Desc>, i: nat, addr: int)
    requires i <= |s|
    decreases |s| - i
  {
    i == |s| || (addr <= s[i].start && ApartFrom(s, i + 1, s[i].start + Bytes(s[i])))
  }

  lemma RegionTiles(d: Desc, index: nat, rest: seq<Row>, from: int, to: int)
    ensures Tiles([Region(index, d)] + rest, from, to) <==> d.start == from && Tiles(rest, from + Bytes(d), to)
  {
    assert ([Region(index, d)] + rest)[1..] == rest;
  }

  lemma GapTiles(addr: u64, size: u64, rest: seq<Row>, to: int)
    ensures Tiles([Gap(addr, size)] + rest, addr, to) <==> size > 0 && Tiles(rest, addr + size, to)
  {
    assert ([Gap(addr, size)] + rest)[1..] == rest;
  }

  lemma RowsOfTile(d: Desc, index: nat, addr: u64, rest: seq<Row>, to: int)
    ensures Tiles(RowsOf(d, index, addr) + rest, addr, to) <==> addr <= d.start && Tiles(rest, d.start + Bytes(d), to)
  {
    var one := [Region(index, d)] + rest;
    if d.start == addr {
      assert RowsOf(d, index, addr) + rest == one;
      RegionTiles(d, index, rest, addr, to);
    } else {
      var size: u64 := (d.start - addr) % TWO64;
      assert RowsOf(d, index, addr) + rest == [Gap(addr, size)] + one;
      GapTiles(addr, size, one, to);
      RegionTiles(d, index, rest, addr + size, to);
    }
  }

  lemma {:induction false} RowsTileIff(s: seq<Desc>, i: nat, addr: u64, skipBs: bool)
    requires i <= |s| && AllFit(s) && Printable(s, skipBs)
    ensures Tiles(Rows(s, i, addr, skipBs), addr, EndOf(s[i..], addr)) <==> ApartFrom(s, i, addr)
    decreases |s| - i
  {
    if i < |s| {
      var end := EndAddr(s[i]);
      assert end == s[i].start + Bytes(s[i]) && EndOf(s[i..], addr) == EndOf(s[i + 1..], end);
      RowsTileIff(s, i + 1, end, skipBs);
      RowsOfTile(s[i], i, addr, Rows(s, i + 1, end, skipBs), EndOf(s[i..], addr));
    }
  }

  /**
   Row `p` shows entry `i` under its number. The row before it is a gap exactly if the entry does not start at
   `end`, where the entry before it ended, and the gap leads from there to the start.
   */
  ghost predicate ShownAt(rows: seq<Row>, p: int, i: nat, d: Desc, end: u64) {
    && 0 <= p < |rows| && rows[p] == Region(i, d)
    && if d.start == end then p == 0 || rows[p - 1].Region?
       else p > 0 && rows[p - 1].Gap? && rows[p - 1].from == end && (end + rows[p - 1].size) % TWO64 == d.start
  }

  lemma ShownFirst(rest: seq<Row>, i: nat, d: Desc, addr: u64)
    ensures ShownAt(RowsOf(d, i, addr) + rest, |RowsOf(d, i, addr)| - 1, i, d, addr)
  {
  }

  lemma ShownLater(first: seq<Row>, rest: seq<Row>, p: int, i: nat, d: Desc, end: u64)
    requires first != [] && first[|first| - 1].Region? && ShownAt(rest, p, i, d, end)
    ensures ShownAt(first + rest, |first| + p, i, d, end)
  {
    var rows := first + rest;
    assert rows[|first| + p] == rest[p];
    assert p > 0 ==> rows[|first| + p - 1] == rest[p - 1];
    assert p == 0 ==> rows[|first| + p - 1] == first[|first| - 1];
  }

  lemma {:induction false} RowShown(s: seq<Desc>, from: nat, addr: u64, skipBs: bool, i: nat) returns (p: int)
    requires from <= i < |s| && Printable(s, skipBs)
    ensures ShownAt(Rows(s, from, addr, skipBs), p, i, s[i], if i == from then addr else EndAddr(s[i - 1]))
    decreases i - from
  {
    var first, rest := RowsOf(s[from], from, addr), Rows(s, from + 1, EndAddr(s[from]), skipBs);
    if i == from {
      ShownFirst(rest, i, s[i], addr);
      p := |first| - 1;
    } else {
      p := RowShown(s, from + 1, EndAddr(s[from]), skipBs, i);
      ShownLater(first, rest, p, i, s[i], EndAddr(s[i - 1]));
      p := |first| + p;
    }
  }

  function Regions(rows: seq<Row>): seq<Row> {
    if rows == [] then []
    else Regions(rows[..|rows| - 1]) + if rows[|rows| - 1].Region? then [rows[|rows| - 1]] else []
  }

  lemma {:induction false} RegionsAppend(a: seq<Row>, b: seq<Row>)
    ensures Regions(a + b) == Regions(a) + Regions(b)
  {
    if b == [] {
      assert a + b == a;
    } else {
      RegionsAppend(a, b[..|b| - 1]);
      assert (a + b)[..|a + b| - 1] == a + b[..|b| - 1];
    }
  }

  lemma RegionsOf(d: Desc, index: nat, addr: u64)
    ensures Regions(RowsOf(d, index, addr)) == [Region(index, d)]
  {
    var one := [Region(index, d)];
    assert one[..0] == [];
    if d.start != addr {
      var gap := [Gap(addr, (d.start - addr) % TWO64)];
      assert gap[..0] == [];
      RegionsAppend(gap, one);
    }
  }

  /** Every entry has its row, in order, and there are no others. */
  lemma {:induction false} RowsShowTable(s: seq<Desc>, i: nat, addr: u64, skipBs: bool)
    requires i <= |s| && Printable(s, skipBs)
    ensures Regions(Rows(s, i, addr, skipBs)) == seq(|s| - i, k requires 0 <= k < |s| - i => Region(i + k, s[i + k]))
    decreases |s| - i
  {
    if i < |s| {
      RowsShowTable(s, i + 1, EndAddr(s[i]), skipBs);
      RegionsOf(s[i], i, addr);
      RegionsAppend(RowsOf(s[i], i, addr), Rows(s, i + 1, EndAddr(s[i]), skipBs));
    }
  }

  // ----- the table and the sorted map

  predicate Before(d: Desc, e: Desc) {
    d.start + Bytes(d) <= e.start
  }

  /** Each entry starts at or after the end of the one before. */
  predicate Apart(s: seq<Desc>) {
    forall i, j {:trigger s[i], s[j]} :: 0 <= i && j == i + 1 < |s| ==> Before(s[i], s[j])
  }

  lemma {:induction false} ApartFromIff(s: seq<Desc>, i: nat, addr: int)
    requires i <= |s|
    ensures ApartFrom(s, i, addr) <==> (i < |s| ==> addr <= s[i].start) && Apart(s[i..])
    decreases |s| - i
  {
    if i < |s| {
      ApartFromIff(s, i + 1, s[i].start + Bytes(s[i]));
      ApartCons(s[i], s[i + 1..]);
      assert s[i..] == [s[i]] + s[i + 1..];
    }
  }

  lemma ApartCons(d: Desc, s: seq<Desc>)
    ensures Apart([d] + s) <==> (s != [] ==> Before(d, s[0])) && Apart(s)
  {
    var t := [d] + s;
    if Apart(t) {
      forall i, j | 0 <= i && j == i + 1 < |s| ensures Before(s[i], s[j]) {
        assert t[i + 1] == s[i] && t[j + 1] == s[j];
      }
      if s != [] {
        assert t[0] == d && t[1] == s[0];
      }
    }
  }

  lemma ApartSnoc(s: seq<Desc>, d: Desc)
    ensures Apart(s + [d]) <==> Apart(s) && (s != [] ==> Before(s[|s| - 1], d))
  {
    var t := s + [d];
    if Apart(t) {
      forall i, j | 0 <= i && j == i + 1 < |s| ensures Before(s[i], s[j]) {
        assert t[i] == s[i] && t[j] == s[j];
      }
      if s != [] {
        assert t[|s| - 1] == s[|s| - 1] && t[|s|] == d;
      }
    }
  }

  lemma ExtendApart(out: seq<Desc>, d: Desc, addr: u64, skipBs: bool)
    requires Fits(d) && (out != [] ==> Fits(out[|out| - 1]) && EndAddr(out[|out| - 1]) == addr)
    ensures Apart(Extend(out, d, addr, skipBs)) <==> Apart(out) && (out != [] ==> addr <= d.start)
  {
    var n := |out|;
    if out != [] && d.start == addr && Joinable(out[n - 1], d, skipBs) {
      var last := Joined(out[n - 1], d);
      assert out[n - 1 := last] == out[..n - 1] + [last] && out == out[..n - 1] + [out[n - 1]];
      ApartSnoc(out[..n - 1], last);
      ApartSnoc(out[..n - 1], out[n - 1]);
    } else {
      ApartSnoc(out, Retyped(d, skipBs));
    }
  }

  lemma ApartTake(s: seq<Desc>, k: nat)
    requires 0 < k <= |s|
    ensures Apart(s[..k]) <==> Apart(s[..k - 1]) && (k > 1 ==> Before(s[k - 2], s[k - 1]))
  {
    ApartSnoc(s[..k - 1], s[k - 1]);
    assert s[..k] == s[..k - 1] + [s[k - 1]];
  }

  lemma LastEnd(s: seq<Desc>, k: nat, skipBs: bool, out: seq<Desc>)
    requires 0 < k <= |s| && AllFit(s) && out == Merged(s, k, skipBs)
    ensures Fits(out[|out| - 1]) && EndAddr(out[|out| - 1]) == EndAddr(s[k - 1]) == s[k - 1].start + Bytes(s[k - 1])
  {
    MergedEnd(s, k, skipBs);
  }

  lemma MergeApartStep(s: seq<Desc>, k: nat, skipBs: bool)
    requires 0 < k <= |s| && AllFit(s)
    ensures Apart(Merged(s, k, skipBs)) <==> Apart(Merged(s, k - 1, skipBs)) && (k > 1 ==> Before(s[k - 2], s[k - 1]))
  {
    var out := Merged(s, k - 1, skipBs);
    if k > 1 {
      LastEnd(s, k - 1, skipBs, out);
      ExtendApart(out, s[k - 1], EndAddr(s[k - 2]), skipBs);
    } else {
      ExtendApart(out, s[0], 0, skipBs);
    }
  }

  lemma {:induction false} MergedApart(s: seq<Desc>, k: nat, skipBs: bool)
    requires k <= |s| && AllFit(s)
    ensures Apart(Merged(s, k, skipBs)) <==> Apart(s[..k])
  {
    if k > 0 {
      MergedApart(s, k - 1, skipBs);
      MergeApartStep(s, k, skipBs);
      ApartTake(s, k);
    }
  }

  predicate NoEnd(s: seq<Desc>) {
    forall i :: 0 <= i < |s| ==> s[i].kind != EFI_TABLE_END
  }

  lemma {:induction false} MergedPrintable(s: seq<Desc>, k: nat, skipBs: bool)
    requires k <= |s| && NoEnd(s)
    ensures Printable(Merged(s, k, skipBs), skipBs)
  {
    if k > 0 {
      MergedPrintable(s, k - 1, skipBs);
    }
  }

  lemma MergedFits(s: seq<Desc>, skipBs: bool)
    requires AllFit(s)
    ensures AllFit(Merged(s, |s|, skipBs))
  {
    if s != [] {
      MergedEnd(s, |s|, skipBs);
    }
  }

  /** The rows of the table tile the addresses from 0 to its end exactly if the sorted entries are apart. */
  lemma SortedTileIff(s: seq<Desc>, skipBs: bool)
    requires AllFit(s) && NoEnd(s)
    ensures var table := Merged(s, |s|, skipBs);
            Tiles(TableRows(table, skipBs), 0, EndOf(table, 0)) <==> Apart(s)
  {
    var table := Merged(s, |s|, skipBs);
    MergedFits(s, skipBs);
    MergedPrintable(s, |s|, skipBs);
    MergedApart(s, |s|, skipBs);
    assert s[..|s|] == s && table[0..] == table;
    RowsTileIff(table, START, START, skipBs);
    ApartFromIff(table, START, START);
  }

  // ----- the map as it was given

  /** Entries do not overlap, whatever their order: none starts inside another, and only empty ones repeat. */
  ghost predicate Disjoint(m: multiset<Desc>) {
    && (forall d, e :: d in m && e in m && d != e ==> Before(d, e) || Before(e, d))
    && (forall d :: m[d] >= 2 ==> d.pages == 0)
  }

  /** No empty entry starts where another one does that is not empty. */
  ghost predicate NoSharedStart(m: multiset<Desc>) {
    forall d, e :: d in m && e in m && d.pages > 0 && e.pages == 0 ==> d.start != e.start
  }

  lemma {:induction false} ApartFar(s: seq<Desc>, i: nat, j: nat)
    requires Apart(s) && i < j < |s|
    ensures Before(s[i], s[j])
    decreases j
  {
    if i + 1 < j {
      ApartFar(s, i, j - 1);
      assert Before(s[j - 1], s[j]);
    } else {
      assert Before(s[i], s[j]);
    }
  }

  lemma {:induction false} TwoPlaces(s: seq<Desc>, d: Desc) returns (i: nat, j: nat)
    requires multiset(s)[d] >= 2
    ensures i < j < |s| && s[i] == d && s[j] == d
  {
    var n := |s| - 1;
    assert s == s[..n] + [s[n]];
    if s[n] == d {
      assert d in multiset(s[..n]);
      i :| 0 <= i < n && s[..n][i] == d;
      j := n;
    } else {
      i, j := TwoPlaces(s[..n], d);
    }
  }

  lemma TwiceThere(s: seq<Desc>, i: nat, j: nat)
    requires i < j < |s| && s[i] == s[j]
    ensures multiset(s)[s[i]] >= 2
  {
    assert s == s[..j] + [s[j]] + s[j + 1..];
    assert s[..j][i] == s[i];
    assert s[i] in multiset(s[..j]);
  }

  lemma ApartIsDisjoint(s: seq<Desc>)
    requires Apart(s)
    ensures Disjoint(multiset(s))
  {
    forall d, e | d in multiset(s) && e in multiset(s) && d != e ensures Before(d, e) || Before(e, d) {
      var i :| 0 <= i < |s| && s[i] == d;
      var j :| 0 <= j < |s| && s[j] == e;
      if i < j {
        ApartFar(s, i, j);
      } else {
        ApartFar(s, j, i);
      }
    }
    forall d | multiset(s)[d] >= 2 ensures d.pages == 0 {
      var i, j := TwoPlaces(s, d);
      ApartFar(s, i, j);
    }
  }

  lemma DisjointIsApart(s: seq<Desc>)
    requires Ascending(s) && Disjoint(multiset(s)) && NoSharedStart(multiset(s))
    ensures Apart(s)
  {
    forall i, j | 0 <= i && j == i + 1 < |s| ensures Before(s[i], s[j]) {
      var d, e := s[i], s[j];
      assert d in multiset(s) && e in multiset(s) && s[j - 1].start <= s[j].start;
      if d == e {
        TwiceThere(s, i, j);
      }
    }
  }

  /** No overflow, everything below 2^63, no end entry, and no empty entry at the start of another one. */
  ghost predicate CleanMap(map0: seq<Desc>) {
    && AllFit(map0) && NoEnd(map0) && NoSharedStart(multiset(map0))
    && forall i :: 0 <= i < |map0| ==> map0[i].start < TWO63
  }

  lemma CleanCopy(map0: seq<Desc>, s: seq<Desc>)
    requires multiset(s) == multiset(map0) && Ordered(s, |s|) && CleanMap(map0)
    ensures AllFit(s) && NoEnd(s) && Ascending(s)
  {
    PermutationMembers(map0, s);
    OrderedIsAscending(s);
  }

  /**
   The rows printed for a map tile the addresses from 0 to the end of its table exactly if its entries do not
   overlap.
   */
  lemma PrintedRowsTileIff(map0: seq<Desc>, s: seq<Desc>, skipBs: bool)
    requires multiset(s) == multiset(map0) && Ordered(s, |s|) && CleanMap(map0)
    ensures var table := Merged(s, |s|, skipBs);
            Tiles(TableRows(table, skipBs), 0, EndOf(table, 0)) <==> Disjoint(multiset(map0))
  {
    CleanCopy(map0, s);
    SortedTileIff(s, skipBs);
    if Apart(s) {
      ApartIsDisjoint(s);
    }
    if Disjoint(multiset(map0)) {
      DisjointIsApart(s);
    }
  }

  /** Where an empty entry shares the start of another one, both orders are sorted and only one of them tiles. */
  lemma SharedStart(d: Desc, e: Desc)
    requires Fits(d) && d.pages > 0 && e.pages == 0 && d.start == e.start
    ensures Ordered([d, e], 2) && Ordered([e, d], 2) && Disjoint(multiset([d, e]))
    ensures !Apart([d, e]) && Apart([e, d])
  {
    assert [d, e][0] == d && [d, e][1] == e;
  }

  // ----- the command

  /** The rows of a table that is made of the map and describes every address as the map does. */
  ghost predicate Shows(rows: seq<Row>, map0: seq<Desc>, table: seq<Desc>, skipBs: bool) {
    && Faithful(map0, table, skipBs) && rows == TableRows(table, skipBs)
    && (exists s :: MadeOf(map0, s, skipBs, table)) && (!skipBs ==> multiset(table) == multiset(map0))
  }

  /** For a clean map they tile the address space up to the end of the table exactly if its entries do not overlap. */
  ghost predicate TilesWhereDisjoint(rows: seq<Row>, map0: seq<Desc>, table: seq<Desc>) {
    CleanMap(map0) ==> (Tiles(rows, 0, EndOf(table, 0)) <==> Disjoint(multiset(map0)))
  }

  /** Build and print. */
  method EfiMem(map0: seq<Desc>, skipBs: bool) returns (rows: seq<Row>)
    ensures AllFit(map0) ==> exists table :: Shows(rows, map0, table, skipBs) && TilesWhereDisjoint(rows, map0, table)
  {
    ghost var s;
    var a, n;
    a, n, s := BuildMemTable(map0, skipBs);
    ghost var table := a[..n];
    rows := PrintMemTable(a, skipBs);
    assert a[..][..n] == table;
    RowsStop(a[..], n, START, START, skipBs);
    if CleanMap(map0) {
      PrintedRowsTileIff(map0, s, skipBs);
    }
    assert MadeOf(map0, s, skipBs, table);
    assert AllFit(map0) ==> Shows(rows, map0, table, skipBs) && TilesWhereDisjoint(rows, map0, table);
  }
}
