/**
 Property values as people write them: lists of cells in decimal or hexadecimal with places to keep, and
 strings. Which byte is set to what, by position.
 */
module FdtCells {
  import opened CText
  import opened FdtText
  import opened FdtRoundTrip
  import opened Octets

  // ----- cells

  /** One cell as it is written: a number of 32 bits, or '?' for the cell that is there. */
  datatype Cell = Hexadecimal(v: nat) | Decimal(v: nat) | Keep

  predicate InRange(c: Cell) {
    c.Keep? || c.v < 0x1_0000_0000
  }

  function Show(c: Cell): string {
    match c
    case Hexadecimal(v) => "0x" + Hex(v)
    case Decimal(v) => Dec(v)
    case Keep => "?"
  }

  function Shown(cs: seq<Cell>): (ts: seq<string>)
    ensures |ts| == |cs|
  {
    if cs == [] then [] else [Show(cs[0])] + Shown(cs[1..])
  }

  /** Four bytes for each cell, high byte first, or none set. */
  function EditsOf(c: Cell): (es: seq<Edit>)
    ensures |es| == 4
  {
    if c.Keep? then [None, None, None, None]
    else [Some(c.v / 0x100_0000 % 256), Some(c.v / 0x1_0000 % 256), Some(c.v / 0x100 % 256), Some(c.v % 256)]
  }

  function AllEdits(cs: seq<Cell>): seq<Edit> {
    if cs == [] then [] else EditsOf(cs[0]) + AllEdits(cs[1..])
  }

  lemma {:induction false} DigitsFreeOf(s: string, radix: nat)
    requires AllDigits(s, radix) && radix <= 16
    ensures ' ' !in s
  {
  }

  lemma ShowFree(c: Cell)
    ensures Show(c) != "" && ' ' !in Show(c)
  {
    match c {
      case Hexadecimal(v) =>
        HexReads(v);
        DigitsFreeOf(Hex(v), 16);
      case Decimal(v) =>
        NumeralReads(v, 10);
        DigitsFreeOf(Dec(v), 10);
      case Keep =>
    }
  }

  lemma {:induction false} ShownFree(cs: seq<Cell>)
    ensures Free(Shown(cs))
  {
    if cs != [] {
      ShowFree(cs[0]);
      ShownFree(cs[1..]);
    }
  }

  lemma SetsWord(v: nat)
    ensures Sets(BigEndian(v)) == EditsOf(Decimal(v))
  {
  }

  lemma NumberCell(cur: string, v: nat, tail: string)
    requires cur != "" && cur[0] != '?' && Number(cur, 0) == v && Rest(cur, 0) == tail
    ensures CellEdits(cur) == EditsOf(Decimal(v)) && AfterCell(cur) == tail
  {
    SetsWord(v);
  }

  lemma ShowReads(c: Cell, tail: string)
    requires InRange(c) && Digit(At(tail, 0)) >= 16 && Lower(At(tail, 0)) != 'x'
    ensures var cur := Show(c) + tail;
            cur != "" && cur[0] != '>' && CellEdits(cur) == EditsOf(c) && AfterCell(cur) == tail
  {
    var cur := Show(c) + tail;
    match c {
      case Hexadecimal(v) =>
        HexReads(v);
        PrefixedBody(Hex(v), tail);
        NumberIs(cur, Hex(v), tail, 16, v);
        NumberCell(cur, v, tail);
      case Decimal(v) =>
        NumeralReads(v, 10);
        DecNumber(v, tail);
        assert cur[0] == Dec(v)[0];
        NumberIs(cur, Dec(v), tail, Radix(cur, 0), v);
        NumberCell(cur, v, tail);
      case Keep =>
        assert cur[1..] == tail;
    }
  }

  lemma OneCell(cur: string, rest: seq<string>, c: Cell, tail: string)
    requires cur == Show(c) + tail && InRange(c) && Digit(At(tail, 0)) >= 16 && Lower(At(tail, 0)) != 'x'
    ensures ParseCells(cur, rest) == Then(EditsOf(c), ParseCells(SkipBlanks(tail), rest))
  {
    ShowReads(c, tail);
    ShowFree(c);
  }

  lemma NoPrefix(tail: string, rest: seq<string>, items: seq<string>)
    requires Flat(tail, rest) == Following(items, '>')
    ensures Lower(At(tail, 0)) != 'x'
  {
    if tail != "" {
      assert Flat(tail, rest)[0] == tail[0];
    }
  }

  /** Any list of cells, however split at its blanks into arguments, sets and keeps what it says. */
  lemma {:induction false} CellListRead(cur: string, rest: seq<string>, cs: seq<Cell>)
    requires (forall i :: 0 <= i < |cs| ==> InRange(cs[i])) && Flat(cur, rest) == Spaced(Shown(cs)) + ">"
    ensures ParseCells(cur, rest) == Edits(AllEdits(cs))
    decreases |cs|
  {
    if cs == [] {
      GoesOn(cur, rest, '>', "");
    } else {
      var more := Shown(cs[1..]);
      ShownFree(cs);
      ShownFree(cs[1..]);
      var tail := ItemHead(cur, rest, Shown(cs), '>');
      assert Shown(cs)[1..] == more;
      var cur', rest' := ToNext(tail, rest, more, '>');
      NoPrefix(tail, rest, more);
      CellListRead(cur', rest', cs[1..]);
      OneCell(cur, rest, cs[0], tail);
      CellsMoved(tail, rest, cur', rest');
    }
  }

  /** Cell `i` is at bytes `4 * i` to `4 * i + 3`. */
  lemma {:induction false} EditAt(cs: seq<Cell>, i: nat)
    requires i < |cs|
    ensures |AllEdits(cs)| == 4 * |cs| && AllEdits(cs)[4 * i..4 * i + 4] == EditsOf(cs[i])
  {
    var rest := AllEdits(cs[1..]);
    if i == 0 {
      if |cs| > 1 {
        EditAt(cs[1..], 0);
      } else {
        assert cs[1..] == [];
      }
    } else {
      EditAt(cs[1..], i - 1);
      assert AllEdits(cs)[4 * i..4 * i + 4] == rest[4 * (i - 1)..4 * (i - 1) + 4];
    }
  }

  // ----- strings

  /** Where argument `i` begins. */
  function Offset(args: seq<string>, i: nat): nat
    requires i <= |args|
  {
    if i == 0 then 0 else Offset(args, i - 1) + |args[i - 1]| + 1
  }

  lemma {:induction false} OffsetTail(args: seq<string>, i: nat)
    requires 0 < i <= |args|
    ensures Offset(args, i) == |args[0]| + 1 + Offset(args[1..], i - 1)
  {
    if i > 1 {
      OffsetTail(args, i - 1);
    }
  }

  lemma Behind(first: seq<Edit>, rest: seq<Edit>, k: nat)
    requires k < |rest|
    ensures (first + rest)[|first| + k] == rest[k]
  {
  }

  /** The characters of argument `i` stand at its place, as bytes, and a zero behind them. */
  lemma {:induction false} StringAt(args: seq<string>, i: nat, j: nat)
    requires i < |args| && j <= |args[i]|
    ensures |ParseStrings(args)| == Offset(args, |args|) && Offset(args, i) + j < |ParseStrings(args)|
    ensures ParseStrings(args)[Offset(args, i) + j] == Some(if j < |args[i]| then args[i][j] as int % 256 else 0)
    decreases |args|
  {
    var tail := args[1..];
    OffsetTail(args, |args|);
    if i > 0 {
      OffsetTail(args, i);
      StringAt(tail, i - 1, j);
      Behind(Copied(args[0]), ParseStrings(tail), Offset(tail, i - 1) + j);
    } else if tail != [] {
      StringAt(tail, 0, 0);
    } else {
      assert ParseStrings(tail) == [] && Offset(tail, 0) == 0;
    }
  }
}
