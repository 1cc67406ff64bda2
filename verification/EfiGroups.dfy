/**
 What the table of the memory map holds, entry by entry: each entry is one entry of the sorted map with its
 addresses and attribute, and with `skip_bs` the pages of those that touch it behind.
 */
module EfiGroups {
  import opened Arithmetic
  import opened EfiSort
  import opened EfiMap

  /** The types that `skip_bs` counts as conventional memory. */
  predicate Usable(d: Desc) {
    d.kind in {EFI_LOADER_CODE, EFI_LOADER_DATA, EFI_BOOT_SERVICES_CODE, EFI_BOOT_SERVICES_DATA,
               EFI_CONVENTIONAL_MEMORY}
  }

  /** Entry `j` is usable and starts where the usable entry before it ends. */
  predicate Touches(s: seq<Desc>, j: nat)
    requires j < |s|
  {
    j > 0 && Usable(s[j]) && Usable(s[j - 1]) && s[j].start == (s[j - 1].start + 4096 * s[j - 1].pages) % TWO64
  }

  /** Entry `j` has an entry of the table to itself, or is the first of several. */
  predicate Opens(s: seq<Desc>, j: nat, skipBs: bool)
    requires j < |s|
  {
    !(skipBs && Touches(s, j))
  }

  /** The entries among the first `k` that open one of the table. */
  function Picks(s: seq<Desc>, k: nat, skipBs: bool): (ps: seq<nat>)
    requires k <= |s|
    ensures forall i :: 0 <= i < |ps| ==> ps[i] < k
  {
    if k == 0 then [] else Picks(s, k - 1, skipBs) + if Opens(s, k - 1, skipBs) then [k - 1] else []
  }

  predicate Increasing(ps: seq<nat>) {
    forall i, j :: 0 <= i < j < |ps| ==> ps[i] < ps[j]
  }

  function PagesOf(d: Desc): (n: nat)
    ensures n < TWO64
  {
    d.pages
  }

  function PagesIn(s: seq<Desc>, from: nat, end: nat): nat
    requires from <= end <= |s|
    decreases end
  {
    if from == end then 0 else PagesIn(s, from, end - 1) + PagesOf(s[end - 1])
  }

  /** The entry of the table for the entries of the map from `from` up to `end`. */
  function EntryOf(s: seq<Desc>, from: nat, end: nat, skipBs: bool): Desc
    requires from < end <= |s|
  {
    Desc(if skipBs && Usable(s[from]) then EFI_CONVENTIONAL_MEMORY else s[from].kind,
         s[from].start, s[from].virt, PagesIn(s, from, end) % TWO64, s[from].attribute)
  }

  function Until(ps: seq<nat>, i: nat, k: nat): nat {
    if i + 1 < |ps| then ps[i + 1] else k
  }

  /** The table consists of the entries opened by `ps`, each with what follows up to the next. */
  predicate GroupedBy(s: seq<Desc>, k: nat, skipBs: bool, ps: seq<nat>, out: seq<Desc>)
    requires k <= |s|
  {
    && |out| == |ps| && Increasing(ps)
    && (forall j: nat :: j < k ==> (j in ps <==> Opens(s, j, skipBs)))
    && forall i :: 0 <= i < |ps| ==>
         ps[i] < Until(ps, i, k) <= k && out[i] == EntryOf(s, ps[i], Until(ps, i, k), skipBs)
  }

  lemma PagesJoin(s: seq<Desc>, from: nat, end: nat)
    requires from <= end < |s|
    ensures (PagesIn(s, from, end) % TWO64 + PagesOf(s[end])) % TWO64 == PagesIn(s, from, end + 1) % TWO64
  {
  }

  lemma OneEntry(s: seq<Desc>, from: nat, skipBs: bool)
    requires from < |s|
    ensures EntryOf(s, from, from + 1, skipBs) == Retyped(s[from], skipBs)
  {
    assert PagesIn(s, from, from) == 0;
  }

  lemma JoinEntry(s: seq<Desc>, from: nat, end: nat, skipBs: bool)
    requires from < end < |s|
    ensures Joined(EntryOf(s, from, end, skipBs), s[end]) == EntryOf(s, from, end + 1, skipBs)
  {
    PagesJoin(s, from, end);
  }

  /** The last entry made of the first `k` is conventional exactly if the last entry read is usable. */
  lemma {:induction false} LastKind(s: seq<Desc>, k: nat)
    requires 0 < k <= |s|
    ensures var out := Merged(s, k, true);
            out[|out| - 1].kind == EFI_CONVENTIONAL_MEMORY <==> Usable(s[k - 1])
  {
    if k > 1 {
      LastKind(s, k - 1);
    }
  }

  /** A turn of the merge joins exactly where an entry touches the one before. */
  lemma JoinsIff(s: seq<Desc>, k: nat, skipBs: bool)
    requires k < |s|
    ensures var out := Merged(s, k, skipBs);
            Merged(s, k + 1, skipBs) == if Opens(s, k, skipBs) then out + [Retyped(s[k], skipBs)]
                                        else if out == [] then [] else out[|out| - 1 := Joined(out[|out| - 1], s[k])]
  {
    if k > 0 && skipBs {
      LastKind(s, k);
    }
  }

  lemma OpenedPicks(s: seq<Desc>, k: nat, skipBs: bool, ps: seq<nat>)
    requires k < |s| && Opens(s, k, skipBs) && Increasing(ps) && forall i :: 0 <= i < |ps| ==> ps[i] < k
    requires forall j: nat :: j < k ==> (j in ps <==> Opens(s, j, skipBs))
    ensures Increasing(ps + [k]) && forall j: nat :: j < k + 1 ==> (j in ps + [k] <==> Opens(s, j, skipBs))
  {
  }

  lemma GroupOpened(s: seq<Desc>, k: nat, skipBs: bool, ps: seq<nat>, out: seq<Desc>)
    requires k < |s| && GroupedBy(s, k, skipBs, ps, out) && Opens(s, k, skipBs)
    ensures GroupedBy(s, k + 1, skipBs, ps + [k], out + [Retyped(s[k], skipBs)])
  {
    var ps', out' := ps + [k], out + [Retyped(s[k], skipBs)];
    forall i | 0 <= i < |ps'|
      ensures ps'[i] < Until(ps', i, k + 1) <= k + 1 && out'[i] == EntryOf(s, ps'[i], Until(ps', i, k + 1), skipBs)
    {
      if i < |ps| {
        assert ps'[i] == ps[i] && out'[i] == out[i] && Until(ps', i, k + 1) == Until(ps, i, k);
      } else {
        OneEntry(s, k, skipBs);
      }
    }
    OpenedPicks(s, k, skipBs, ps);
  }

  lemma GroupJoined(s: seq<Desc>, k: nat, skipBs: bool, ps: seq<nat>, out: seq<Desc>)
    requires k < |s| && GroupedBy(s, k, skipBs, ps, out) && !Opens(s, k, skipBs) && out != []
    ensures GroupedBy(s, k + 1, skipBs, ps, out[|out| - 1 := Joined(out[|out| - 1], s[k])])
  {
    var n := |ps| - 1;
    JoinEntry(s, ps[n], k, skipBs);
    assert forall i :: 0 <= i < n ==> Until(ps, i, k + 1) == Until(ps, i, k);
  }

  lemma GroupStep(s: seq<Desc>, k: nat, skipBs: bool, ps: seq<nat>, out: seq<Desc>, ps': seq<nat>, out': seq<Desc>)
    requires k < |s| && GroupedBy(s, k, skipBs, ps, out) && (k > 0 ==> out != [])
    requires ps' == ps + (if Opens(s, k, skipBs) then [k] else [])
    requires out' == if Opens(s, k, skipBs) then out + [Retyped(s[k], skipBs)]
                     else if out == [] then [] else out[|out| - 1 := Joined(out[|out| - 1], s[k])]
    ensures GroupedBy(s, k + 1, skipBs, ps', out')
  {
    if Opens(s, k, skipBs) {
      GroupOpened(s, k, skipBs, ps, out);
    } else {
      GroupJoined(s, k, skipBs, ps, out);
      assert ps' == ps;
    }
  }

  lemma {:induction false} MergedGroups(s: seq<Desc>, k: nat, skipBs: bool)
    requires k <= |s|
    ensures GroupedBy(s, k, skipBs, Picks(s, k, skipBs), Merged(s, k, skipBs))
  {
    if k > 0 {
      MergedGroups(s, k - 1, skipBs);
      JoinsIff(s, k - 1, skipBs);
      GroupStep(s, k - 1, skipBs, Picks(s, k - 1, skipBs), Merged(s, k - 1, skipBs),
                Picks(s, k, skipBs), Merged(s, k, skipBs));
    }
  }

  /** The table is made of the entries of a sorted copy of the map. */
  ghost predicate MadeOf(map0: seq<Desc>, s: seq<Desc>, skipBs: bool, table: seq<Desc>) {
    && multiset(s) == multiset(map0) && Ordered(s, |s|)
    && exists ps :: GroupedBy(s, |s|, skipBs, ps, table)
  }

  /** Without `skip_bs` the table is the sorted map itself. */
  lemma {:induction false} PlainTable(s: seq<Desc>, k: nat)
    requires k <= |s|
    ensures Merged(s, k, false) == s[..k]
  {
    if k > 0 {
      PlainTable(s, k - 1);
      assert s[..k] == s[..k - 1] + [s[k - 1]];
    }
  }
}
