/** Parsing the printed form of a device-tree property value gives the value back. */
module FdtRoundTrip {
  import opened CText
  import opened FdtText
  import opened Octets

  /** The arguments with a blank between them: the text they were split from. */
  function Flat(cur: string, rest: seq<string>): string
    decreases |rest|
  {
    if rest == [] then cur else cur + " " + Flat(rest[0], rest[1..])
  }

  /** A piece of the text without blanks lies within one argument. */
  lemma Within(cur: string, rest: seq<string>, tok: string, more: string)
    requires Flat(cur, rest) == tok + more && ' ' !in tok
    ensures tok <= cur && Flat(cur[|tok|..], rest) == more
  {
    var f := Flat(cur, rest);
    if rest != [] {
      var tail := Flat(rest[0], rest[1..]);
      assert f[|cur|] == ' ';
      assert cur == f[..|cur|];
      assert more == f[|tok|..];
      assert f == cur + " " + tail;
    }
  }

  /** Where the rest begins with a character that is no blank, that is where the argument goes on. */
  lemma GoesOn(cur: string, rest: seq<string>, c: char, more: string)
    requires Flat(cur, rest) == [c] + more && c != ' '
    ensures cur != "" && cur[0] == c
  {
    Within(cur, rest, [c], more);
  }

  /** A blank is either skipped or the end of an argument. */
  lemma BlankEnds(cur: string, rest: seq<string>, more: string)
    requires Flat(cur, rest) == " " + more
    ensures cur == "" ==> rest != [] && Flat(rest[0], rest[1..]) == more
    ensures cur != "" ==> cur[0] == ' ' && Flat(cur[1..], rest) == more
  {
    if cur == "" {
      assert rest != [];
      assert (" " + more)[1..] == more;
    } else {
      assert (" " + more)[1..] == more && Flat(cur, rest)[0] == cur[0];
      if rest != [] {
        assert (cur + " " + Flat(rest[0], rest[1..]))[1..] == cur[1..] + " " + Flat(rest[0], rest[1..]);
      }
    }
  }

  /** A number followed by no digit is read whole. */
  lemma CellNumber(v: nat, tail: string)
    requires v < 0x1_0000_0000 && Digit(At(tail, 0)) >= 16
    ensures var cp := "0x" + HexPad(v, 8) + tail;
            Number(cp, 0) == v && Rest(cp, 0) == tail
  {
    PowBounds();
    HexPadReads(v, 8);
    PrefixedNumber("0x" + HexPad(v, 8) + tail, HexPad(v, 8), tail, v);
  }

  lemma ByteNumber(v: nat, tail: string)
    requires v < 256 && Digit(At(tail, 0)) >= 16
    ensures var s := HexPad(v, 2) + tail;
            Number(s, 16) == v && Rest(s, 16) == tail && Digit(s[0]) < 16
  {
    assert Pow16(2) == 256;
    HexPadReads(v, 2);
    var h := HexPad(v, 2);
    assert (h + tail)[1] == h[1];
    assert Body(h + tail, 16) == h + tail;
    DigitsAre(h, 16, tail);
  }

  lemma LowByteIs(n: nat, v: byte)
    requires n == v
    ensures LowByte(n) == v
  {
  }

  /** What follows an item: the next one behind a blank, or the closing character. */
  function Following(items: seq<string>, close: char): string {
    if items == [] then [close] else " " + Spaced(items) + [close]
  }

  lemma SpacedFirst(items: seq<string>, close: char)
    requires items != []
    ensures Spaced(items) + [close] == items[0] + Following(items[1..], close)
  {
  }

  predicate Free(items: seq<string>) {
    forall i :: 0 <= i < |items| ==> items[i] != "" && ' ' !in items[i]
  }

  lemma StartsItem(cur: string, rest: seq<string>, items: seq<string>, close: char)
    requires Flat(cur, rest) == Spaced(items) + [close] && close != ' ' && Free(items)
    ensures cur != "" && cur[0] != ' '
  {
    if items == [] {
      GoesOn(cur, rest, close, "");
    } else {
      SpacedFirst(items, close);
      var more := items[0][1..] + Following(items[1..], close);
      assert Spaced(items) + [close] == [items[0][0]] + more;
      GoesOn(cur, rest, items[0][0], more);
    }
  }

  /** Skipping blanks and arguments that are used up. */
  predicate Moved(tail: string, rest: seq<string>, cur': string, rest': seq<string>) {
    && cur' != "" && cur'[0] != ' '
    && (tail == "" ==> rest != [] && cur' == rest[0] && rest' == rest[1..])
    && (tail != "" ==> cur' == SkipBlanks(tail) && rest' == rest)
  }

  /** Behind an item that leads to the next one. */
  lemma ToNext(tail: string, rest: seq<string>, items: seq<string>, close: char)
    returns (cur': string, rest': seq<string>)
    requires Flat(tail, rest) == Following(items, close) && Digit(close) >= 16 && close != ' ' && Free(items)
    ensures Flat(cur', rest') == Spaced(items) + [close] && Moved(tail, rest, cur', rest')
    ensures Digit(At(tail, 0)) >= 16
  {
    if items == [] {
      GoesOn(tail, rest, close, "");
      cur', rest' := tail, rest;
    } else {
      BlankEnds(tail, rest, Spaced(items) + [close]);
      if tail == "" {
        cur', rest' := rest[0], rest[1..];
        StartsItem(cur', rest', items, close);
      } else {
        cur', rest' := tail[1..], rest;
        StartsItem(cur', rest', items, close);
      }
    }
  }

  lemma {:induction false} BytesFree(data: seq<byte>)
    ensures Free(ByteTexts(data))
    decreases |data|
  {
    if data != [] {
      HexFree(data[0], 2);
      BytesFree(data[1..]);
    }
  }

  lemma {:induction false} CellsFree(data: seq<byte>)
    ensures Free(CellTexts(data))
    decreases |data|
  {
    if |data| >= 4 {
      HexFree(Word(data[..4]), 8);
      CellsFree(data[4..]);
    }
  }

  lemma {:induction false} HexFree(v: nat, n: nat)
    ensures ' ' !in HexPad(v, n)
  {
    if n > 0 {
      HexFree(v / 16, n - 1);
      HexDigitReads(v % 16);
    }
  }

  lemma ItemHead(cur: string, rest: seq<string>, items: seq<string>, close: char) returns (tail: string)
    requires items != [] && Free(items) && Flat(cur, rest) == Spaced(items) + [close]
    ensures cur == items[0] + tail && Flat(tail, rest) == Following(items[1..], close)
  {
    SpacedFirst(items, close);
    Within(cur, rest, items[0], Following(items[1..], close));
    tail := cur[|items[0]|..];
  }

  lemma {:induction false} CellsRead(cur: string, rest: seq<string>, data: seq<byte>)
    requires |data| % 4 == 0 && Flat(cur, rest) == Spaced(CellTexts(data)) + ">"
    ensures ParseCells(cur, rest) == Edits(Sets(data))
    decreases |data|
  {
    if data == [] {
      GoesOn(cur, rest, '>', "");
      assert Sets(data) == [];
    } else {
      var items := CellTexts(data);
      CellsFree(data);
      var tail := ItemHead(cur, rest, items, '>');
      var more := CellTexts(data[4..]);
      assert items[1..] == more;
      CellsFree(data[4..]);
      var cur', rest' := ToNext(tail, rest, more, '>');
      CellsRead(cur', rest', data[4..]);
      CellStep(cur, rest, data, tail, cur', rest');
    }
  }

  lemma CellsMoved(tail: string, rest: seq<string>, cur': string, rest': seq<string>)
    requires Moved(tail, rest, cur', rest')
    ensures ParseCells(SkipBlanks(tail), rest) == ParseCells(cur', rest')
  {
  }

  lemma CellPiece(cur: string, rest: seq<string>, b: seq<byte>, tail: string)
    requires |b| == 4 && cur == "0x" + HexPad(Word(b), 8) + tail && Digit(At(tail, 0)) >= 16
    ensures ParseCells(cur, rest) == Then(Sets(b), ParseCells(SkipBlanks(tail), rest))
  {
    WordBack(b);
    CellNumber(Word(b), tail);
    assert AfterCell(cur) == tail && CellEdits(cur) == Sets(b);
  }

  lemma SetsSplit(data: seq<byte>, k: nat)
    requires k <= |data|
    ensures Sets(data) == Sets(data[..k]) + Sets(data[k..])
  {
  }

  lemma CellStep(cur: string, rest: seq<string>, data: seq<byte>, tail: string, cur': string, rest': seq<string>)
    requires |data| >= 4 && cur == "0x" + HexPad(Word(data[..4]), 8) + tail
    requires Digit(At(tail, 0)) >= 16 && Moved(tail, rest, cur', rest')
    requires ParseCells(cur', rest') == Edits(Sets(data[4..]))
    ensures ParseCells(cur, rest) == Edits(Sets(data))
  {
    CellPiece(cur, rest, data[..4], tail);
    CellsMoved(tail, rest, cur', rest');
    SetsSplit(data, 4);
  }

  lemma {:induction false} BytesRead(cur: string, rest: seq<string>, data: seq<byte>)
    requires Flat(cur, rest) == Spaced(ByteTexts(data)) + "]"
    ensures ParseBytes(cur, rest) == Edits(Sets(data))
    decreases |data|
  {
    if data == [] {
      GoesOn(cur, rest, ']', "");
      assert Sets(data) == [];
    } else {
      var items := ByteTexts(data);
      BytesFree(data);
      var tail := ItemHead(cur, rest, items, ']');
      var more := ByteTexts(data[1..]);
      assert items[1..] == more;
      BytesFree(data[1..]);
      var cur', rest' := ToNext(tail, rest, more, ']');
      BytesRead(cur', rest', data[1..]);
      ByteStep(cur, rest, data, tail, cur', rest');
    }
  }

  lemma BytesMoved(tail: string, rest: seq<string>, cur': string, rest': seq<string>)
    requires Moved(tail, rest, cur', rest')
    ensures ParseBytes(tail, rest) == ParseBytes(cur', rest')
  {
    assert SkipBlanks(cur') == cur';
    assert ParseBytes("", rest) == if rest == [] then Outcome(PastEnd, []) else ParseBytes(rest[0], rest[1..]);
  }

  lemma ByteParses(s: string, rest: seq<string>, n: nat, v: byte, tail: string)
    requires s != "" && Digit(s[0]) < 16 && Number(s, 16) == n && LowByte(n) == v && Rest(s, 16) == tail
    ensures ParseBytes(s, rest) == Then([Some(v)], ParseBytes(tail, rest))
  {
    assert SkipBlanks(s) == s;
  }

  lemma BytePiece(s: string, rest: seq<string>, v: byte, tail: string)
    requires s == HexPad(v, 2) + tail && Digit(At(tail, 0)) >= 16
    ensures ParseBytes(s, rest) == Then([Some(v)], ParseBytes(tail, rest))
  {
    ByteNumber(v, tail);
    LowByteIs(v, v);
    ByteParses(s, rest, v, v, tail);
  }

  lemma ByteStep(cur: string, rest: seq<string>, data: seq<byte>, tail: string, cur': string, rest': seq<string>)
    requires data != [] && cur == HexPad(data[0], 2) + tail
    requires Digit(At(tail, 0)) >= 16 && Moved(tail, rest, cur', rest')
    requires ParseBytes(cur', rest') == Edits(Sets(data[1..]))
    ensures ParseBytes(cur, rest) == Edits(Sets(data))
  {
    BytePiece(cur, rest, data[0], tail);
    BytesMoved(tail, rest, cur', rest');
    SetsCons(data);
  }

  lemma SetsCons(data: seq<byte>)
    requires data != []
    ensures Sets(data) == [Some(data[0])] + Sets(data[1..])
  {
  }

  /**
   However the printed form of a value is split at its blanks into arguments, parsing them sets exactly
   the bytes of the value.
   */
  lemma ValueComesBack(data: seq<byte>, args: seq<string>)
    requires args != [] && data != [] && Flat(args[0], args[1..]) == ValueText(data)
    ensures ParseProp(args) == Edits(Sets(data))
  {
    var cur, rest := args[0], args[1..];
    if |data| % 4 == 0 {
      var body := Spaced(CellTexts(data)) + ">";
      assert ValueText(data) == "<" + body;
      Within(cur, rest, "<", body);
      CellsRead(cur[1..], rest, data);
    } else {
      var body := Spaced(ByteTexts(data)) + "]";
      assert ValueText(data) == "[" + body;
      Within(cur, rest, "[", body);
      BytesRead(cur[1..], rest, data);
    }
  }

  /** Values of whole cells are printed as cells, eight digits each, and all others as bytes of two digits. */
  lemma FormIs(data: seq<byte>, i: nat)
    requires i < |data|
    ensures |data| % 4 == 0 ==>
              ValueText(data) == "<" + Spaced(CellTexts(data)) + ">" && |CellTexts(data)| == |data| / 4 &&
              CellTexts(data)[i / 4] == "0x" + HexPad(Word(data[i / 4 * 4..i / 4 * 4 + 4]), 8)
    ensures |data| % 4 != 0 ==>
              ValueText(data) == "[" + Spaced(ByteTexts(data)) + "]" && |ByteTexts(data)| == |data| &&
              ByteTexts(data)[i] == HexPad(data[i], 2)
  {
    if |data| % 4 == 0 {
      CellTextAt(data, i / 4);
    } else {
      ByteTextAt(data, i);
    }
  }

  /** After those edits the buffer begins with the value, and holds what it held behind it. */
  lemma ValueInBuffer(data: seq<byte>, was: seq<byte>, now: seq<byte>)
    requires Edited(was, Sets(data), now)
    ensures now == data + was[|data|..]
  {
  }
}
