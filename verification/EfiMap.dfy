/**
 The memory map builder of the `efi mem` command: sort, then retype and merge the descriptors in
 place. Whatever it does, every address keeps its description.
 */
module EfiMap {
  import opened Arithmetic
  import opened EfiSort
  import opened Octets

  const EFI_LOADER_CODE := 1
  const EFI_LOADER_DATA := 2
  const EFI_BOOT_SERVICES_CODE := 3
  const EFI_BOOT_SERVICES_DATA := 4
  const EFI_CONVENTIONAL_MEMORY := 7
  const EFI_TABLE_END := 16

  predicate IsBootServices(kind: nat) {
    kind in {EFI_LOADER_CODE, EFI_LOADER_DATA, EFI_BOOT_SERVICES_CODE, EFI_BOOT_SERVICES_DATA}
  }

  /** The type an entry has in the table. */
  function Retyped(d: Desc, skipBs: bool): Desc {
    if skipBs && IsBootServices(d.kind) then d.(kind := EFI_CONVENTIONAL_MEMORY) else d
  }

  /** `num_pages << EFI_PAGE_SHIFT`, before it is cut to 64 bits */
  function Bytes(d: Desc): nat {
    4096 * d.pages
  }

  /** `physical_start + (num_pages << EFI_PAGE_SHIFT)` in 64 bits. */
  function EndAddr(d: Desc): u64 {
    (d.start + Bytes(d)) % TWO64
  }

  predicate Fits(d: Desc) {
    d.start + Bytes(d) < TWO64
  }

  predicate AllFit(s: seq<Desc>) {
    forall i :: 0 <= i < |s| ==> Fits(s[i])
  }

  /** One turn of the merge loop; `addr` is where the entry before `d` ended. */
  function Extend(out: seq<Desc>, d: Desc, addr: u64, skipBs: bool): seq<Desc> {
    var r := Retyped(d, skipBs);
    if skipBs && out != [] && d.start == addr && r.kind == EFI_CONVENTIONAL_MEMORY
       && out[|out| - 1].kind == EFI_CONVENTIONAL_MEMORY
    then
      out[|out| - 1 := Joined(out[|out| - 1], d)]
    else out + [r]
  }

  /** The table made of the first `k` entries. */
  function Merged(s: seq<Desc>, k: nat, skipBs: bool): (out: seq<Desc>)
    requires k <= |s|
    ensures |out| <= k && (k > 0 ==> out != [])
  {
    if k == 0 then []
    else Extend(Merged(s, k - 1, skipBs), s[k - 1], if k == 1 then 0 else EndAddr(s[k - 2]), skipBs)
  }

  // ----- in place

  /** One turn: copy the entry at `desc` down to `dest`, or join it to the entry before. */
  method Place(a: array<Desc>, dest: nat, desc: nat, addr: u64, skipBs: bool) returns (dest': nat)
    requires dest <= desc < a.Length
    modifies a
    ensures dest' <= desc + 1 && a[..dest'] == Extend(old(a[..dest]), old(a[desc]), addr, skipBs)
    ensures forall i :: desc < i < a.Length ==> a[i] == old(a[i])
  {
    var d := a[desc];
    var kind := if skipBs && IsBootServices(d.kind) then EFI_CONVENTIONAL_MEMORY else d.kind;
    a[dest] := d.(kind := kind);
    if skipBs && dest > 0 && d.start == addr && kind == EFI_CONVENTIONAL_MEMORY
       && a[dest - 1].kind == EFI_CONVENTIONAL_MEMORY
    {
      a[dest - 1] := Joined(a[dest - 1], d);
      dest' := dest;
    } else {
      dest' := dest + 1;
    }
  }

  /** Retype and merge the first `n` entries of `a` in place, and mark the end. */
  method MergeInPlace(a: array<Desc>, n: nat, skipBs: bool) returns (dest: nat)
    requires n < a.Length
    modifies a
    ensures dest <= n && a[..dest] == Merged(old(a[..]), n, skipBs)
    ensures a[dest].kind == EFI_TABLE_END
  {
    ghost var s := a[..];
    var addr: u64 := 0;
    var desc := 0;
    dest := 0;
    while desc < n
      invariant dest <= desc <= n // the write cursor never overtakes the read cursor
      invariant a[..dest] == Merged(s, desc, skipBs)
      invariant forall i :: desc <= i < a.Length ==> a[i] == s[i]
      invariant addr == if desc == 0 then 0 else EndAddr(s[desc - 1])
    {
      var d := a[desc];
      dest := Place(a, dest, desc, addr, skipBs);
      addr := EndAddr(d);
      desc := desc + 1;
    }
    a[dest] := a[dest].(kind := EFI_TABLE_END);
  }

  // ----- weighing a table: coverage of an address, total of pages

  ghost function Weigh(s: seq<Desc>, w: Desc -> nat): nat {
    if s == [] then 0 else Weigh(s[..|s| - 1], w) + w(s[|s| - 1])
  }

  lemma {:induction false} WeighAppend(s: seq<Desc>, t: seq<Desc>, w: Desc -> nat)
    ensures Weigh(s + t, w) == Weigh(s, w) + Weigh(t, w)
  {
    if t == [] {
      assert s + t == s;
    } else {
      assert (s + t)[..|s + t| - 1] == s + t[..|t| - 1];
      WeighAppend(s, t[..|t| - 1], w);
    }
  }

  lemma WeighOne(d: Desc, w: Desc -> nat)
    ensures Weigh([d], w) == w(d)
  {
    assert [d][..0] == [];
  }

  lemma WeighTake(s: seq<Desc>, k: nat, w: Desc -> nat)
    requires 0 < k <= |s|
    ensures Weigh(s[..k], w) == Weigh(s[..k - 1], w) + w(s[k - 1])
  {
    assert s[..k][..k - 1] == s[..k - 1];
  }

  lemma WeighMiddle(t: seq<Desc>, a: seq<Desc>, d: Desc, b: seq<Desc>, w: Desc -> nat)
    requires t == a + [d] + b
    ensures Weigh(t, w) == Weigh(a + b, w) + w(d)
  {
    WeighAppend(a + [d], b, w);
    WeighAppend(a, [d], w);
    WeighAppend(a, b, w);
    WeighOne(d, w);
  }

  lemma WeighRemove(t: seq<Desc>, j: nat, w: Desc -> nat)
    requires j < |t|
    ensures Weigh(t, w) == Weigh(t[..j] + t[j + 1..], w) + w(t[j])
  {
    SplitAt(t, j);
    WeighMiddle(t, t[..j], t[j], t[j + 1..], w);
  }

  lemma WeighFirst(s: seq<Desc>, w: Desc -> nat)
    requires s != []
    ensures Weigh(s, w) == Weigh(s[1..], w) + w(s[0])
  {
    WeighRemove(s, 0, w);
    assert s[..0] + s[1..] == s[1..];
  }

  /** A permutation weighs the same. */
  lemma {:induction false} WeighPermutation(s: seq<Desc>, t: seq<Desc>, w: Desc -> nat)
    requires multiset(s) == multiset(t)
    ensures Weigh(s, w) == Weigh(t, w)
    decreases |s|
  {
    if s == [] {
      assert |t| == |multiset(t)| == |multiset(s)| == 0;
    } else {
      var j := Partner(s, t);
      WeighFirst(s, w);
      WeighRemove(t, j, w);
      WeighPermutation(s[1..], t[..j] + t[j + 1..], w);
    }
  }

  predicate Covers(d: Desc, x: int) {
    d.start <= x < d.start + Bytes(d)
  }

  /** 1 for the entries that describe address `x` as of type `kind`. */
  function Describing(x: int, kind: nat, skipBs: bool): Desc -> nat {
    (d: Desc) => if Covers(d, x) && Retyped(d, skipBs).kind == kind then 1 else 0
  }

  /** 1 for the entries that describe address `x` at all. */
  function Covering(x: int): Desc -> nat {
    (d: Desc) => if Covers(d, x) then 1 else 0
  }

  function Pages(): Desc -> nat {
    (d: Desc) => d.pages
  }

  /** How often address `x` is described as `kind`, with boot services read as asked for. */
  ghost function Multiplicity(s: seq<Desc>, x: int, kind: nat, skipBs: bool): nat {
    Weigh(s, Describing(x, kind, skipBs))
  }

  // ----- the merge preserves meaning

  /** The entry that takes the place of two touching ones. */
  function Joined(last: Desc, d: Desc): Desc {
    last.(pages := (last.pages + d.pages) % TWO64)
  }

  lemma JoinedIsBoth(last: Desc, d: Desc)
    requires Fits(last) && Fits(d) && EndAddr(last) == d.start
    ensures Fits(Joined(last, d)) && EndAddr(Joined(last, d)) == EndAddr(d)
    ensures Joined(last, d).pages == last.pages + d.pages
    ensures forall x :: Covers(Joined(last, d), x) <==> Covers(last, x) || Covers(d, x)
    ensures forall x :: !(Covers(last, x) && Covers(d, x))
  {
    assert EndAddr(last) == last.start + Bytes(last);
    assert last.pages + d.pages < TWO64;
  }

  /** The last entry of the table ends where the last entry read ends. */
  lemma {:induction false} MergedEnd(s: seq<Desc>, k: nat, skipBs: bool)
    requires 0 < k <= |s| && AllFit(s)
    ensures var out := Merged(s, k, skipBs); AllFit(out) && EndAddr(out[|out| - 1]) == EndAddr(s[k - 1])
  {
    if k > 1 {
      MergedEnd(s, k - 1, skipBs);
      var out := Merged(s, k - 1, skipBs);
      if s[k - 1].start == EndAddr(s[k - 2]) {
        JoinedIsBoth(out[|out| - 1], s[k - 1]);
      }
    }
  }

  predicate Joinable(last: Desc, d: Desc, skipBs: bool) {
    && skipBs && Fits(last) && Fits(d) && EndAddr(last) == d.start
    && last.kind == EFI_CONVENTIONAL_MEMORY && Retyped(d, skipBs).kind == EFI_CONVENTIONAL_MEMORY
  }

  /** Retyping does not change the weight, and a joined entry weighs as much as its parts. */
  ghost predicate Additive(w: Desc -> nat, skipBs: bool) {
    && (forall d :: w(Retyped(d, skipBs)) == w(d))
    && forall last, d :: Joinable(last, d, skipBs) ==> w(Joined(last, d)) == w(last) + w(d)
  }

  lemma MeaningIsAdditive(x: int, kind: nat, skipBs: bool)
    ensures Additive(Describing(x, kind, skipBs), skipBs)
    ensures Additive(Covering(x), skipBs)
    ensures Additive(Pages(), skipBs)
  {
    forall last, d | Joinable(last, d, skipBs)
      ensures Describing(x, kind, skipBs)(Joined(last, d)) ==
              Describing(x, kind, skipBs)(last) + Describing(x, kind, skipBs)(d)
      ensures Covering(x)(Joined(last, d)) == Covering(x)(last) + Covering(x)(d)
      ensures Pages()(Joined(last, d)) == Pages()(last) + Pages()(d)
    {
      JoinedIsBoth(last, d);
    }
  }

  lemma WeighLast(out: seq<Desc>, x: Desc, w: Desc -> nat)
    requires out != []
    ensures Weigh(out[|out| - 1 := x], w) == Weigh(out[..|out| - 1], w) + w(x)
  {
    assert out[|out| - 1 := x][..|out| - 1] == out[..|out| - 1];
  }

  lemma ExtendWeighs(out: seq<Desc>, d: Desc, addr: u64, skipBs: bool, w: Desc -> nat)
    requires Additive(w, skipBs) && Fits(d)
    requires out != [] ==> Fits(out[|out| - 1]) && EndAddr(out[|out| - 1]) == addr
    ensures Weigh(Extend(out, d, addr, skipBs), w) == Weigh(out, w) + w(d)
  {
    var r, n := Retyped(d, skipBs), |out|;
    if out != [] && Joinable(out[n - 1], d, skipBs) {
      WeighLast(out, Joined(out[n - 1], d), w);
    } else {
      WeighAppend(out, [r], w);
      WeighOne(r, w);
    }
  }

  lemma MergeStep(s: seq<Desc>, k: nat, skipBs: bool, w: Desc -> nat)
    requires 0 < k <= |s| && AllFit(s) && Additive(w, skipBs)
    ensures Weigh(Merged(s, k, skipBs), w) == Weigh(Merged(s, k - 1, skipBs), w) + w(s[k - 1])
  {
    if k > 1 {
      MergedEnd(s, k - 1, skipBs);
    }
    ExtendWeighs(Merged(s, k - 1, skipBs), s[k - 1], if k == 1 then 0 else EndAddr(s[k - 2]), skipBs, w);
  }

  /** After k entries the table weighs what those entries weigh. */
  lemma {:induction false} MergeWeighs(s: seq<Desc>, k: nat, skipBs: bool, w: Desc -> nat)
    requires k <= |s| && AllFit(s) && Additive(w, skipBs)
    ensures Weigh(Merged(s, k, skipBs), w) == Weigh(s[..k], w)
  {
    if k > 0 {
      MergeWeighs(s, k - 1, skipBs, w);
      WeighTake(s, k, w);
      MergeStep(s, k, skipBs, w);
    }
  }

  // ----- normal form

  /** No two neighbours of the table are both conventional and touching. */
  predicate Compact(out: seq<Desc>) {
    forall i :: 0 < i < |out| && out[i].kind == out[i - 1].kind == EFI_CONVENTIONAL_MEMORY ==>
      EndAddr(out[i - 1]) != out[i].start
  }

  predicate Ascending(s: seq<Desc>) {
    forall i :: 0 < i < |s| ==> s[i - 1].start <= s[i].start
  }

  /** The last entry of the table starts at or before `top`. */
  predicate UpTo(out: seq<Desc>, top: int) {
    out != [] ==> out[|out| - 1].start <= top
  }

  lemma ExtendAscending(out: seq<Desc>, d: Desc, addr: u64, skipBs: bool)
    requires Ascending(out) && UpTo(out, d.start)
    ensures Ascending(Extend(out, d, addr, skipBs)) && UpTo(Extend(out, d, addr, skipBs), d.start)
  {
  }

  predicate NoBootServices(out: seq<Desc>) {
    forall i :: 0 <= i < |out| ==> !IsBootServices(out[i].kind)
  }

  lemma ExtendCompact(out: seq<Desc>, d: Desc, addr: u64)
    requires Compact(out) && NoBootServices(out) && Fits(d)
    requires out != [] ==> Fits(out[|out| - 1]) && EndAddr(out[|out| - 1]) == addr
    ensures Compact(Extend(out, d, addr, true)) && NoBootServices(Extend(out, d, addr, true))
  {
  }

  lemma {:induction false} MergedAscending(s: seq<Desc>, k: nat, skipBs: bool)
    requires k <= |s| && Ascending(s)
    ensures Ascending(Merged(s, k, skipBs)) && (k > 0 ==> UpTo(Merged(s, k, skipBs), s[k - 1].start))
  {
    if k > 0 {
      MergedAscending(s, k - 1, skipBs);
      ExtendAscending(Merged(s, k - 1, skipBs), s[k - 1], if k == 1 then 0 else EndAddr(s[k - 2]), skipBs);
    }
  }

  lemma {:induction false} MergedCompact(s: seq<Desc>, k: nat)
    requires k <= |s| && AllFit(s)
    ensures Compact(Merged(s, k, true)) && NoBootServices(Merged(s, k, true))
  {
    if k > 0 {
      MergedCompact(s, k - 1);
      if k > 1 {
        MergedEnd(s, k - 1, true);
      }
      ExtendCompact(Merged(s, k - 1, true), s[k - 1], if k == 1 then 0 else EndAddr(s[k - 2]));
    }
  }

  /** A sorted map gives a sorted table, and with `skip_bs` it is compact and holds no boot services. */
  lemma NormalForm(s: seq<Desc>, k: nat, skipBs: bool)
    requires k <= |s| && AllFit(s) && Ascending(s)
    ensures var out := Merged(s, k, skipBs); Ascending(out) && (skipBs ==> Compact(out) && NoBootServices(out))
  {
    MergedAscending(s, k, skipBs);
    if skipBs {
      MergedCompact(s, k);
    }
  }
}
