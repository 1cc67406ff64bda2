/**
 The shell sort behind `qsort`, on descriptors and with the comparison of the memory map command.
 */
module EfiSort {
  import opened Arithmetic

  const TWO63 := 0x8000_0000_0000_0000

  type u64 = x: int | 0 <= x < TWO64

  datatype Desc = Desc(kind: nat, start: u64, virt: u64, pages: u64, attribute: u64)

  /** `(int64_t)(x - y)` */
  function SignedDiff(x: u64, y: u64): (r: int) {
    var d := (x - y) % TWO64;
    if d < TWO63 then d else d - TWO64
  }

  function CmpEntry(a: Desc, b: Desc): int {
    var diff := SignedDiff(a.start, b.start);
    if diff < 0 then -1 else if diff > 0 then 1 else 0
  }

  /** A strictly greater entry is strictly smaller the other way round, even where the difference wraps. */
  lemma CmpFlips(a: Desc, b: Desc)
    requires CmpEntry(a, b) > 0
    ensures CmpEntry(b, a) < 0
  {
  }

  /** Below 2^63 the comparison is that of the start addresses. */
  lemma CmpIsOrder(a: Desc, b: Desc)
    requires a.start < TWO63 && b.start < TWO63
    ensures CmpEntry(a, b) <= 0 <==> a.start <= b.start
  {
  }

  /** Neighbours among the first `k` are in order. */
  ghost predicate Ordered(s: seq<Desc>, k: nat)
    requires k <= |s|
  {
    forall m :: 0 < m < k ==> CmpEntry(s[m - 1], s[m]) <= 0
  }

  /** The gaps 1, 4, 13, ...: dividing by three always ends at 1. */
  predicate IsGap(g: nat) {
    g == 1 || (g > 1 && (g - 1) % 3 == 0 && IsGap((g - 1) / 3))
  }

  method Swap(a: array<Desc>, n: nat, i: nat, j: nat)
    requires i < j < n <= a.Length
    modifies a
    ensures a[..] == old(a[..][i := a[j]][j := a[i]])
    ensures multiset(a[..n]) == old(multiset(a[..n])) && a[n..] == old(a[n..])
  {
    ghost var s := a[..n];
    a[i], a[j] := a[j], a[i];
    assert a[..n] == s[i := s[j]][j := s[i]];
  }

  /** Everything up to `i` is in order but for the entry at `p`, which is on its way down. */
  ghost predicate Sinking(s: seq<Desc>, p: nat, i: nat)
    requires p <= i < |s|
  {
    && (forall m :: 0 < m <= i && m != p ==> CmpEntry(s[m - 1], s[m]) <= 0)
    && (0 < p < i ==> CmpEntry(s[p - 1], s[p + 1]) <= 0)
  }

  lemma SinkStep(s: seq<Desc>, p: nat, i: nat)
    requires 0 < p <= i < |s| && Sinking(s, p, i) && CmpEntry(s[p - 1], s[p]) > 0
    ensures Sinking(s[p - 1 := s[p]][p := s[p - 1]], p - 1, i)
  {
    CmpFlips(s[p - 1], s[p]);
    var t := s[p - 1 := s[p]][p := s[p - 1]];
    forall m | 0 < m <= i && m != p - 1 ensures CmpEntry(t[m - 1], t[m]) <= 0 {
      if m != p && m != p + 1 {
        assert t[m - 1] == s[m - 1] && t[m] == s[m];
      }
    }
  }

  lemma SinkDone(s: seq<Desc>, p: nat, i: nat)
    requires p <= i < |s| && Sinking(s, p, i) && (p == 0 || CmpEntry(s[p - 1], s[p]) <= 0)
    ensures Ordered(s, i + 1)
  {
  }

  /** Move entry `i` down in steps of `gap`. */
  method Sink(a: array<Desc>, n: nat, gap: nat, i: nat)
    requires 0 < gap <= i < n <= a.Length
    modifies a
    ensures multiset(a[..n]) == old(multiset(a[..n])) && a[n..] == old(a[n..])
    ensures gap == 1 && old(Ordered(a[..], i)) ==> Ordered(a[..], i + 1)
  {
    ghost var sorted := gap == 1 && Ordered(a[..], i);
    var j := i;
    while j >= gap
      invariant j <= i && multiset(a[..n]) == old(multiset(a[..n])) && a[n..] == old(a[n..])
      invariant sorted ==> Sinking(a[..], j, i)
    {
      j := j - gap;
      if CmpEntry(a[j], a[j + gap]) <= 0 {
        if sorted {
          SinkDone(a[..], j + 1, i);
        }
        return;
      }
      if sorted {
        SinkStep(a[..], j + 1, i);
      }
      Swap(a, n, j, j + gap);
    }
    if sorted {
      SinkDone(a[..], 0, i);
    }
  }

  /** One pass of the shell sort. */
  method Pass(a: array<Desc>, n: nat, gap: nat)
    requires 0 < gap < n <= a.Length
    modifies a
    ensures multiset(a[..n]) == old(multiset(a[..n])) && a[n..] == old(a[n..])
    ensures gap == 1 ==> Ordered(a[..], n)
  {
    var i := gap;
    while i < n
      invariant gap <= i <= n && multiset(a[..n]) == old(multiset(a[..n])) && a[n..] == old(a[n..])
      invariant gap == 1 ==> Ordered(a[..], i)
    {
      Sink(a, n, gap, i);
      i := i + 1;
    }
  }

  method FirstGap(n: nat) returns (gap: nat)
    requires n > 1
    ensures IsGap(gap) && gap < n
  {
    gap := 1;
    while gap < (n - 1) / 3
      invariant IsGap(gap) && gap < n
    {
      assert (3 * gap) % 3 == 0 && (3 * gap) / 3 == gap;
      gap := 3 * gap + 1;
    }
  }

  lemma {:induction false} NextGap(gap: nat)
    requires IsGap(gap)
    ensures (gap - 1) / 3 == 0 ==> gap == 1
    ensures (gap - 1) / 3 > 0 ==> IsGap((gap - 1) / 3)
    ensures (gap - 1) / 3 < gap
  {
  }

  /** The result is a permutation with neighbours in order, whatever the addresses. */
  method QSort(a: array<Desc>, n: nat)
    requires n <= a.Length
    modifies a
    ensures multiset(a[..n]) == old(multiset(a[..n])) && a[n..] == old(a[n..])
    ensures Ordered(a[..], n)
  {
    if n > 1 {
      var gap: nat := FirstGap(n);
      while gap > 0
        invariant gap < n && (if gap > 0 then IsGap(gap) else Ordered(a[..], n))
        invariant multiset(a[..n]) == old(multiset(a[..n])) && a[n..] == old(a[n..])
      {
        Pass(a, n, gap);
        NextGap(gap);
        gap := (gap - 1) / 3;
      }
    }
  }
}
