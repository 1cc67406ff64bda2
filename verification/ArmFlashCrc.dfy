/** The checksum of the ARM flash image footer: 32-bit addition with end-around carry, complemented. */
module ArmFlashCrc {
  import opened Arithmetic
  import opened Octets

  const MAX := 0xFFFF_FFFF
  type u32 = w: int | 0 <= w <= 0xFFFF_FFFF

  function Wrap(x: int): u32 {
    x % 0x1_0000_0000
  }

  function Total(words: seq<u32>): nat {
    if words == [] then 0 else Total(words[..|words| - 1]) + words[|words| - 1]
  }

  /** The representative of `total` modulo 2^32 - 1 in 1..2^32 - 1; zero only for zero. */
  function Reduced(total: nat): u32 {
    if total == 0 then 0 else (total - 1) % MAX + 1
  }

  /** One turn of the loop body on the running sum. */
  function Carry(sum: u32, val: u32): u32 {
    Wrap((if val > MAX - sum then Wrap(sum + 1) else sum) + val)
  }

  function Folded(x: nat): nat {
    if x > MAX then x - MAX else x
  }

  lemma CarryFolds(sum: u32, val: u32)
    ensures Carry(sum, val) == Folded(sum + val)
  {
  }

  lemma ReducedFolds(total: nat, val: u32)
    ensures Reduced(total + val) == Folded(Reduced(total) + val)
  {
    if total > 0 {
      var r := (total - 1) % MAX;
      var q := (total - 1) / MAX;
      if r + val >= MAX {
        DivModUnique(total + val - 1, MAX, q + 1, r + val - MAX);
      } else {
        DivModUnique(total + val - 1, MAX, q, r + val);
      }
    } else if val > 0 {
      DivModUnique(val - 1, MAX, 0, val - 1);
    }
  }

  /** The end-around carry is addition modulo 2^32 - 1. */
  lemma CarryReduces(total: nat, val: u32)
    ensures Carry(Reduced(total), val) == Reduced(total + val)
  {
    CarryFolds(Reduced(total), val);
    ReducedFolds(total, val);
  }

  lemma NextWord(words: seq<u32>, k: nat)
    requires k < |words|
    ensures Carry(Reduced(Total(words[..k])), words[k]) == Reduced(Total(words[..k + 1]))
  {
    CarryReduces(Total(words[..k]), words[k]);
    assert words[..k + 1][..k] == words[..k];
  }

  method AddWord(sum0: u32, val: u32) returns (sum: u32)
    ensures sum == Carry(sum0, val)
  {
    sum := sum0;
    if val > MAX - sum {
      sum := Wrap(sum + 1);
    }
    sum := Wrap(sum + val);
  }

  /** `compute_crc`; `readl` is the memory, and `len` stays in the range of the loop's `int`. */
  method ComputeCrc(readl: int -> u32, start: int, len: u32) returns (crc: u32)
    requires len < 0x8000_0000
    ensures len % 4 != 0 ==> crc == 0
    ensures len % 4 == 0 ==> crc == MAX - Reduced(Total(seq(len / 4, k => readl(start + 4 * k))))
  {
    if len % 4 != 0 {
      return 0;
    }
    ghost var words := seq(len / 4, k => readl(start + 4 * k));
    var sum, i := 0, 0;
    while i < len
      invariant 0 <= i <= len && i % 4 == 0
      invariant sum == Reduced(Total(words[..i / 4]))
    {
      var val := readl(start + i);
      NextWord(words, i / 4);
      sum := AddWord(sum, val);
      i := i + 4;
    }
    assert words[..i / 4] == words;
    crc := MAX - sum;
  }

  lemma {:induction false} TotalWithout(words: seq<u32>, k: nat)
    requires k < |words|
    ensures Total(words) == words[k] + Total(words[..k] + words[k + 1..])
  {
    var front, rest := words[..|words| - 1], words[..k] + words[k + 1..];
    if k == |words| - 1 {
      assert rest == front;
    } else {
      TotalWithout(front, k);
      assert rest[..|rest| - 1] == front[..k] + front[k + 1..];
    }
  }

  /** The order of the words does not matter. */
  lemma {:induction false} OrderFree(a: seq<u32>, b: seq<u32>)
    requires multiset(a) == multiset(b)
    ensures Total(a) == Total(b)
    decreases |a|
  {
    if a == [] {
      assert |multiset(b)| == 0;
    } else {
      var k := Partner(a, b);
      TotalWithout(a, 0);
      assert a[..0] + a[1..] == a[1..];
      TotalWithout(b, k);
      OrderFree(a[1..], b[..k] + b[k + 1..]);
    }
  }

  /** The complement of the sum is zero: the block checks out. */
  predicate Checks(total: nat) {
    Reduced(total) == MAX
  }

  lemma ChecksWith(total: nat, rest: nat, w: u32)
    requires total == w + rest
    ensures Checks(total) <==> w == MAX - Reduced(rest) || (Reduced(rest) == MAX && w == MAX)
  {
    ReducedFolds(rest, w);
  }

  /**
   A block checks out just when the word at `k`, wherever that is, is the complement of the sum of the
   others; all ones also passes where that complement is zero, its other representation.
   */
  lemma ChecksIff(words: seq<u32>, k: nat, others: nat)
    requires k < |words| && others == Total(words[..k] + words[k + 1..])
    ensures Checks(Total(words)) <==> words[k] == MAX - Reduced(others) || (Reduced(others) == MAX && words[k] == MAX)
  {
    TotalWithout(words, k);
    ChecksWith(Total(words), others, words[k]);
  }

  /** One changed word is noticed, unless a zero word and all ones are exchanged. */
  lemma ChangeNoticed(words: seq<u32>, k: nat, w: u32)
    requires k < |words| && w != words[k]
    requires Checks(Total(words)) && Checks(Total(words[k := w]))
    ensures (w == 0 && words[k] == MAX) || (w == MAX && words[k] == 0)
  {
    var others := words[..k] + words[k + 1..];
    var changed := words[k := w];
    assert changed[..k] + changed[k + 1..] == others;
    TotalWithout(words, k);
    TotalWithout(changed, k);
    ChecksWith(Total(words), Total(others), words[k]);
    ChecksWith(Total(changed), Total(others), w);
  }
}
