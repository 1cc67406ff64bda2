/** Bytes and their sums, and taking one element out of a sequence. */
module Octets {
  type byte = b: int | 0 <= b < 256

  function Sum(s: seq<byte>): nat {
    if s == [] then 0 else Sum(s[..|s| - 1]) + s[|s| - 1]
  }

  lemma {:induction false} SumAppend(a: seq<byte>, b: seq<byte>)
    ensures Sum(a + b) == Sum(a) + Sum(b)
  {
    if b == [] {
      assert a + b == a;
    } else {
      var b' := b[..|b| - 1];
      assert (a + b)[..|a + b| - 1] == a + b';
      SumAppend(a, b');
    }
  }

  lemma SumOne(c: byte)
    ensures Sum([c]) == c
  {
    assert [c][..0] == [];
  }

  lemma SumThree(b: seq<byte>)
    requires |b| == 3
    ensures Sum(b) == (b[0] as int) + (b[1] as int) + (b[2] as int)
  {
    assert b == [b[0]] + [b[1]] + [b[2]];
    SumAppend([b[0]] + [b[1]], [b[2]]);
    SumAppend([b[0]], [b[1]]);
    SumOne(b[0]);
    SumOne(b[1]);
    SumOne(b[2]);
  }

  lemma SumFour(b: seq<byte>)
    requires |b| == 4
    ensures Sum(b) == (b[0] as int) + (b[1] as int) + (b[2] as int) + (b[3] as int)
  {
    assert b == b[..3] + [b[3]];
    SumAppend(b[..3], [b[3]]);
    SumThree(b[..3]);
    SumOne(b[3]);
  }

  // ----- big-endian words

  /** The low 32 bits of a number, high byte first. */
  function BigEndian(v: nat): (b: seq<byte>)
    ensures |b| == 4
  {
    [v / 0x100_0000 % 256, v / 0x1_0000 % 256, v / 0x100 % 256, v % 256]
  }

  function Word(b: seq<byte>): nat
    requires |b| == 4
  {
    (b[0] as int) * 0x100_0000 + (b[1] as int) * 0x1_0000 + (b[2] as int) * 0x100 + b[3]
  }

  lemma WordBack(b: seq<byte>)
    requires |b| == 4
    ensures BigEndian(Word(b)) == b && Word(b) < 0x1_0000_0000
  {
    var v := Word(b);
    assert v / 0x100 == (b[0] as int) * 0x1_0000 + (b[1] as int) * 0x100 + b[2];
    assert v / 0x1_0000 == (b[0] as int) * 0x100 + b[1];
    assert v / 0x100_0000 == b[0];
  }

  lemma BigEndianBack(v: nat)
    requires v < 0x1_0000_0000
    ensures Word(BigEndian(v)) == v
  {
    var x, y, z := v / 0x100, v / 0x1_0000, v / 0x100_0000;
    assert y == x / 256 && z == y / 256 && z < 256;
    assert v == 256 * x + v % 256 && x == 256 * y + x % 256 && y == 256 * z + y % 256;
  }

  lemma SplitAt<T>(s: seq<T>, k: nat)
    requires k < |s|
    ensures s == s[..k] + [s[k]] + s[k + 1..]
  {
  }

  lemma TakeOut<T>(s: seq<T>, k: nat)
    requires k < |s|
    ensures multiset(s[..k] + s[k + 1..]) == multiset(s) - multiset{s[k]}
  {
    SplitAt(s, k);
  }

  /** Where a permutation has the first element, and that the rest is a permutation of the rest. */
  lemma Partner<T(!new)>(s: seq<T>, t: seq<T>) returns (j: nat)
    requires multiset(s) == multiset(t) && s != []
    ensures j < |t| && t[j] == s[0] && multiset(s[1..]) == multiset(t[..j] + t[j + 1..])
  {
    assert s[0] in multiset(t);
    j :| 0 <= j < |t| && t[j] == s[0];
    TakeOut(t, j);
    TakeOut(s, 0);
    assert s[..0] + s[1..] == s[1..];
  }
}
