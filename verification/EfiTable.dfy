/**
 The `efi mem` table: built by sorting and merging, then printed row by row with its gaps.
 */
module EfiTable {
  import opened Arithmetic
  import opened EfiSort
  import opened EfiMap
  import opened EfiGroups

  /** Every entry of a permutation is an entry of the original. */
  lemma PermutationMembers(s: seq<Desc>, t: seq<Desc>)
    requires multiset(s) == multiset(t)
    ensures |s| == |t| && forall i :: 0 <= i < |t| ==> t[i] in s
  {
    assert |s| == |multiset(s)| == |multiset(t)| == |t|;
    forall i | 0 <= i < |t| ensures t[i] in s {
      assert t[i] in multiset(t);
      assert t[i] in multiset(s);
    }
  }

  /** What the builder promises about its table, for a map without address overflow. */
  ghost predicate Faithful(map0: seq<Desc>, table: seq<Desc>, skipBs: bool) {
    && (forall x, kind :: Multiplicity(table, x, kind, skipBs) == Multiplicity(map0, x, kind, skipBs))
    && (forall x :: Weigh(table, Covering(x)) == Weigh(map0, Covering(x)))
    && Weigh(table, Pages()) == Weigh(map0, Pages())
  }

  lemma MergedIsFaithful(map0: seq<Desc>, s: seq<Desc>, skipBs: bool)
    requires multiset(s) == multiset(map0) && AllFit(map0)
    ensures AllFit(s) && Faithful(map0, Merged(s, |s|, skipBs), skipBs)
  {
    PermutationMembers(map0, s);
    var table := Merged(s, |s|, skipBs);
    forall x, kind ensures Multiplicity(table, x, kind, skipBs) == Multiplicity(map0, x, kind, skipBs) {
      MeaningIsAdditive(x, kind, skipBs);
      SameWeight(map0, s, skipBs, Describing(x, kind, skipBs));
    }
    forall x ensures Weigh(table, Covering(x)) == Weigh(map0, Covering(x)) {
      MeaningIsAdditive(x, 0, skipBs);
      SameWeight(map0, s, skipBs, Covering(x));
    }
    MeaningIsAdditive(0, 0, skipBs);
    SameWeight(map0, s, skipBs, Pages());
  }

  lemma SameWeight(map0: seq<Desc>, s: seq<Desc>, skipBs: bool, w: Desc -> nat)
    requires multiset(s) == multiset(map0) && AllFit(s) && Additive(w, skipBs)
    ensures Weigh(Merged(s, |s|, skipBs), w) == Weigh(map0, w)
  {
    assert s[..|s|] == s;
    MergeWeighs(s, |s|, skipBs, w);
    WeighPermutation(s, map0, w);
  }

  lemma OrderedIsAscending(s: seq<Desc>)
    requires Ordered(s, |s|) && forall i :: 0 <= i < |s| ==> s[i].start < TWO63
    ensures Ascending(s)
  {
    forall i | 0 < i < |s| ensures s[i - 1].start <= s[i].start {
      CmpIsOrder(s[i - 1], s[i]);
    }
  }

  /** Sorted by start address, and with `skip_bs` compact. */
  ghost predicate Normal(table: seq<Desc>, skipBs: bool) {
    Ascending(table) && (skipBs ==> Compact(table))
  }

  lemma TableProperties(map0: seq<Desc>, s: seq<Desc>, skipBs: bool)
    requires multiset(s) == multiset(map0) && Ordered(s, |s|) && AllFit(map0)
    ensures Faithful(map0, Merged(s, |s|, skipBs), skipBs)
    ensures (forall i :: 0 <= i < |map0| ==> map0[i].start < TWO63) ==> Normal(Merged(s, |s|, skipBs), skipBs)
  {
    MergedIsFaithful(map0, s, skipBs);
    if forall i :: 0 <= i < |map0| ==> map0[i].start < TWO63 {
      PermutationMembers(map0, s);
      OrderedIsAscending(s);
      NormalForm(s, |s|, skipBs);
    }
  }

  /** A sorted copy of the map, with room for the end mark. */
  method SortedCopy(map0: seq<Desc>) returns (a: array<Desc>)
    ensures fresh(a) && a.Length == |map0| + 1
    ensures var s := a[..|map0|]; multiset(s) == multiset(map0) && Ordered(s, |s|)
  {
    var count := |map0|;
    a := new Desc[count + 1](i => if 0 <= i < count then map0[i] else Desc(0, 0, 0, 0, 0));
    assert a[..count] == map0;
    QSort(a, count);
  }

  /**
   Copy, sort to `s`, merge, mark the end. Without address overflow the table describes every address
   as the map does, with the same number of pages; below 2^63 it is sorted, and with `skip_bs` compact.
   */
  method BuildMemTable(map0: seq<Desc>, skipBs: bool) returns (a: array<Desc>, n: nat, ghost s: seq<Desc>)
    ensures fresh(a) && n <= |map0| && n < a.Length && a[n].kind == EFI_TABLE_END
    ensures multiset(s) == multiset(map0) && Ordered(s, |s|) && a[..n] == Merged(s, |s|, skipBs)
    ensures MadeOf(map0, s, skipBs, a[..n]) && (!skipBs ==> multiset(a[..n]) == multiset(map0))
    ensures AllFit(map0) ==> Faithful(map0, a[..n], skipBs)
    ensures AllFit(map0) && (forall i :: 0 <= i < |map0| ==> map0[i].start < TWO63) ==> Normal(a[..n], skipBs)
  {
    a := SortedCopy(map0);
    s := a[..|map0|];
    ghost var whole := a[..];
    n := MergeInPlace(a, |map0|, skipBs);
    MergedPrefix(whole, s, |s|, skipBs);
    MergedGroups(s, |s|, skipBs);
    if !skipBs {
      PlainTable(s, |s|);
      assert s[..|s|] == s;
    }
    if AllFit(map0) {
      TableProperties(map0, s, skipBs);
    }
  }

  /** The merge only looks at the entries it has read. */
  lemma {:induction false} MergedPrefix(s: seq<Desc>, t: seq<Desc>, k: nat, skipBs: bool)
    requires k <= |s| && k <= |t| && s[..k] == t[..k]
    ensures Merged(s, k, skipBs) == Merged(t, k, skipBs)
  {
    if k > 0 {
      assert forall i :: 0 <= i < k ==> s[i] == s[..k][i] == t[..k][i] == t[i];
      MergedPrefix(s, t, k - 1, skipBs);
    }
  }

  // ----- printing

  datatype Row = Gap(from: u64, size: u64) | Region(index: nat, d: Desc)

  /** The gap row, if any, and the row of one entry; `addr` is where the last row ended. */
  function RowsOf(d: Desc, index: nat, addr: u64): seq<Row> {
    (if d.start != addr then [Gap(addr, (d.start - addr) % TWO64)] else []) + [Region(index, d)]
  }

  function Rows(s: seq<Desc>, i: nat, addr: u64, skipBs: bool): seq<Row>
    requires i <= |s|
    decreases |s| - i
  {
    if i == |s| || s[i].kind == EFI_TABLE_END then []
    else if skipBs && IsBootServices(s[i].kind) then Rows(s, i + 1, addr, skipBs)
    else RowsOf(s[i], i, addr) + Rows(s, i + 1, EndAddr(s[i]), skipBs)
  }

  const START := 0

  /** All rows of a table. */
  function TableRows(s: seq<Desc>, skipBs: bool): seq<Row> {
    Rows(s, START, START, skipBs)
  }

  method PrintEntry(rows: seq<Row>, d: Desc, index: nat, addr: u64) returns (rows': seq<Row>)
    ensures rows' == rows + RowsOf(d, index, addr)
  {
    rows' := rows;
    if d.start != addr {
      rows' := rows' + [Gap(addr, (d.start - addr) % TWO64)];
    }
    rows' := rows' + [Region(index, d)];
  }

  method PrintMemTable(a: array<Desc>, skipBs: bool) returns (rows: seq<Row>)
    requires exists n :: 0 <= n < a.Length && a[n].kind == EFI_TABLE_END
    ensures rows == TableRows(a[..], skipBs)
  {
    ghost var n :| 0 <= n < a.Length && a[n].kind == EFI_TABLE_END;
    ghost var s, all := a[..], TableRows(a[..], skipBs);
    rows := [];
    var addr: u64 := 0;
    var upto := 0;
    while a[upto].kind != EFI_TABLE_END
      invariant 0 <= upto <= n
      invariant rows + Rows(s, upto, addr, skipBs) == all
      decreases n - upto
    {
      var d := a[upto];
      if !(skipBs && IsBootServices(d.kind)) {
        ghost var one, rest := RowsOf(d, upto, addr), Rows(s, upto + 1, EndAddr(d), skipBs);
        assert rows + (one + rest) == (rows + one) + rest;
        rows := PrintEntry(rows, d, upto, addr);
        addr := EndAddr(d);
      }
      upto := upto + 1;
    }
    assert rows + [] == rows;
  }

  /** Printing stops at the end mark. */
  lemma {:induction false} RowsStop(s: seq<Desc>, n: nat, i: nat, addr: u64, skipBs: bool)
    requires i <= n < |s| && s[n].kind == EFI_TABLE_END
    ensures Rows(s, i, addr, skipBs) == Rows(s[..n], i, addr, skipBs)
    decreases n - i
  {
    if i < n {
      RowsStop(s, n, i + 1, addr, skipBs);
      RowsStop(s, n, i + 1, EndAddr(s[i]), skipBs);
    }
  }
}
