/**
 Device-tree property values as text: the cell and byte forms of `print_data`, and `fdt_parse_prop`
 over the arguments of the command. Cells are big-endian (section 2.2.4 of the Devicetree Specification).
 */
module FdtText {
  import opened CText
  import opened Octets

  /** What a parsed value does to the bytes of the property: set one, or keep what is there. */
  type Edit = Option<byte>

  /** 0 and 1 are returned; the third is a read through the NULL that follows the last argument. */
  datatype Verdict = Parsed | Refused | PastEnd

  /** What becomes of a text, and the edits done by then. */
  datatype Outcome = Outcome(verdict: Verdict, edits: seq<Edit>)

  function Edits(edits: seq<Edit>): Outcome {
    Outcome(Parsed, edits)
  }

  function Then(first: seq<Edit>, o: Outcome): Outcome {
    Outcome(o.verdict, first + o.edits)
  }

  // ----- printing

  function CellTexts(data: seq<byte>): seq<string> {
    if |data| < 4 then [] else ["0x" + HexPad(Word(data[..4]), 8)] + CellTexts(data[4..])
  }

  function ByteTexts(data: seq<byte>): seq<string> {
    if data == [] then [] else [HexPad(data[0], 2)] + ByteTexts(data[1..])
  }

  function Spaced(items: seq<string>): string {
    if items == [] then "" else if |items| == 1 then items[0] else items[0] + " " + Spaced(items[1..])
  }

  /** The printed form of a value of 1 to 64 bytes that is not a string. */
  function ValueText(data: seq<byte>): string {
    if |data| % 4 == 0 then "<" + Spaced(CellTexts(data)) + ">" else "[" + Spaced(ByteTexts(data)) + "]"
  }

  lemma {:induction false} CellCount(data: seq<byte>)
    ensures |CellTexts(data)| == |data| / 4
    decreases |data|
  {
    if |data| >= 4 {
      CellCount(data[4..]);
    }
  }

  lemma NextCell(data: seq<byte>, j: nat)
    requires 1 <= j && 4 * j + 4 <= |data|
    ensures data[4..][4 * (j - 1)..4 * (j - 1) + 4] == data[4 * j..4 * j + 4]
  {
  }

  lemma {:induction false} CellTextAt(data: seq<byte>, j: nat)
    requires 4 * j + 4 <= |data|
    ensures |CellTexts(data)| == |data| / 4 && CellTexts(data)[j] == "0x" + HexPad(Word(data[4 * j..4 * j + 4]), 8)
    decreases j
  {
    CellCount(data);
    if j > 0 {
      var rest := data[4..];
      NextCell(data, j);
      CellTextAt(rest, j - 1);
      assert CellTexts(data)[j] == CellTexts(rest)[j - 1];
    }
  }

  lemma {:induction false} ByteTextAt(data: seq<byte>, j: nat)
    requires j < |data|
    ensures |ByteTexts(data)| == |data| && ByteTexts(data)[j] == HexPad(data[j], 2)
  {
    if |data| > 1 {
      ByteTextAt(data[1..], if j > 0 then j - 1 else 0);
    }
  }

  lemma SpacedNext(items: seq<string>, j: nat)
    requires j < |items|
    ensures Spaced(items[j..]) == items[j] + (if j < |items| - 1 then " " else "") + Spaced(items[j + 1..])
  {
    assert items[j..][1..] == items[j + 1..];
  }

  method PrintCells(data: seq<byte>) returns (out: string)
    requires |data| > 0 && |data| % 4 == 0
    ensures out == "<" + Spaced(CellTexts(data)) + ">"
  {
    ghost var items := CellTexts(data);
    CellTextAt(data, 0);
    out := "<";
    var n := |data| / 4;
    for j := 0 to n
      invariant out + Spaced(items[j..]) == "<" + Spaced(items)
    {
      CellTextAt(data, j);
      SpacedNext(items, j);
      ghost var before := out;
      out := out + (("0x" + HexPad(Word(data[4 * j..4 * j + 4]), 8)) + (if j < n - 1 then " " else ""));
      assert out + Spaced(items[j + 1..]) == before + Spaced(items[j..]);
    }
    assert Spaced(items[n..]) == "";
    out := out + ">";
  }

  method PrintBytes(data: seq<byte>) returns (out: string)
    requires |data| > 0
    ensures out == "[" + Spaced(ByteTexts(data)) + "]"
  {
    ghost var items := ByteTexts(data);
    ByteTextAt(data, 0);
    out := "[";
    for j := 0 to |data|
      invariant out + Spaced(items[j..]) == "[" + Spaced(items)
    {
      ByteTextAt(data, j);
      SpacedNext(items, j);
      ghost var before := out;
      out := out + (HexPad(data[j], 2) + (if j < |data| - 1 then " " else ""));
      assert out + Spaced(items[j + 1..]) == before + Spaced(items[j..]);
    }
    assert Spaced(items[|data|..]) == "";
    out := out + "]";
  }

  /** The cell and byte branches of `print_data`. */
  method PrintData(data: seq<byte>) returns (out: string)
    requires 1 <= |data| <= 64
    ensures out == ValueText(data)
  {
    if |data| % 4 == 0 {
      out := PrintCells(data);
    } else {
      out := PrintBytes(data);
    }
  }

  // ----- parsing

  function SkipBlanks(s: string): (r: string)
    ensures |r| <= |s| && (r != "" ==> r[0] != ' ')
  {
    if s != "" && s[0] == ' ' then SkipBlanks(s[1..]) else s
  }

  function Sets(data: seq<byte>): (es: seq<Edit>)
    ensures |es| == |data|
  {
    seq(|data|, i requires 0 <= i < |data| => Some(data[i]))
  }

  /** One cell: '?' keeps the four bytes, a number sets them. */
  function CellEdits(cp: string): seq<Edit> {
    if At(cp, 0) == '?' then [None, None, None, None] else Sets(BigEndian(Number(cp, 0)))
  }

  function AfterCell(cp: string): string {
    if At(cp, 0) == '?' then cp[1..] else Rest(cp, 0)
  }

  /** Behind the '<': `cur` is what is left of this argument, `rest` the arguments after it. */
  function ParseCells(cur: string, rest: seq<string>): Outcome
    decreases |rest|, |cur|
  {
    if cur == "" then
      if rest == [] then Outcome(PastEnd, []) else ParseCells(rest[0], rest[1..])
    else if cur[0] == '>' then Edits([])
    else if |AfterCell(cur)| >= |cur| then Outcome(Refused, CellEdits(cur))
    else Then(CellEdits(cur), ParseCells(SkipBlanks(AfterCell(cur)), rest))
  }

  function LowByte(n: nat): byte {
    n % 256
  }

  lemma Advances(s: string)
    requires s != "" && Digit(s[0]) < 16
    ensures |Rest(s, 16)| < |s|
  {
  }

  /** Behind the '['. */
  function ParseBytes(cur: string, rest: seq<string>): Outcome
    decreases |rest|, |cur|
  {
    var s := SkipBlanks(cur);
    if s == "" then
      if rest == [] then Outcome(PastEnd, []) else ParseBytes(rest[0], rest[1..])
    else if s[0] == ']' then Edits([])
    else if Digit(s[0]) >= 16 then Outcome(Refused, [])
    else
      Advances(s);
      Then([Some(LowByte(Number(s, 16)))], ParseBytes(Rest(s, 16), rest))
  }

  /** Strings go in with their terminators. */
  function ParseStrings(args: seq<string>): (es: seq<Edit>) {
    if args == [] then []
    else Copied(args[0]) + ParseStrings(args[1..])
  }

  function Copied(s: string): (es: seq<Edit>)
    ensures |es| == |s| + 1
  {
    seq(|s| + 1, i requires 0 <= i <= |s| => Some(At(s, i) as int % 256))
  }

  function ParseProp(args: seq<string>): Outcome
    requires args != []
  {
    match At(args[0], 0)
    case '<' => ParseCells(args[0][1..], args[1..])
    case '[' => ParseBytes(args[0][1..], args[1..])
    case _ => Edits(ParseStrings(args))
  }

  /** The bytes in front of `|es|` are as edited, the others as they were. */
  ghost predicate Edited(was: seq<byte>, es: seq<Edit>, now: seq<byte>) {
    && |was| == |now| && |es| <= |now|
    && forall i :: 0 <= i < |now| ==> now[i] == if i < |es| && es[i].Some? then es[i].value else was[i]
  }

  method PutCell(data: array<byte>, len: nat, ghost was: seq<byte>, ghost es: seq<Edit>, cp: string, tmp: nat)
    requires len == |es| && len + 4 <= data.Length && Edited(was, es, data[..])
    requires At(cp, 0) != '?' ==> tmp == Number(cp, 0)
    modifies data
    ensures Edited(was, es + CellEdits(cp), data[..])
  {
    if At(cp, 0) != '?' {
      var b := BigEndian(tmp);
      data[len], data[len + 1], data[len + 2], data[len + 3] := b[0], b[1], b[2], b[3];
    }
  }

  lemma ThenTwice(a: seq<Edit>, b: seq<Edit>, o: Outcome)
    ensures Then([], o) == o && Then(a, Then(b, o)) == Then(a + b, o)
  {
    assert [] + o.edits == o.edits;
    assert a + (b + o.edits) == a + b + o.edits;
  }

  method ReadCells(cur0: string, rest0: seq<string>, data: array<byte>) returns (v: Verdict, len: nat)
    requires data.Length >= |ParseCells(cur0, rest0).edits|
    modifies data
    ensures v == ParseCells(cur0, rest0).verdict
    ensures len == |ParseCells(cur0, rest0).edits| && Edited(old(data[..]), ParseCells(cur0, rest0).edits, data[..])
  {
    var newp, rest := cur0, rest0;
    ghost var es: seq<Edit> := [];
    len := 0;
    ThenTwice([], [], ParseCells(cur0, rest0));
    while At(newp, 0) != '>'
      invariant len == |es| && ParseCells(cur0, rest0) == Then(es, ParseCells(newp, rest))
      invariant Edited(old(data[..]), es, data[..])
      decreases |rest|, |newp|
    {
      if newp == "" {
        if rest == [] {
          assert es + [] == es;
          return PastEnd, len;
        }
        newp, rest := rest[0], rest[1..];
      } else {
        var cp := newp;
        var tmp;
        tmp, newp := StrToUll(cp, 0);
        PutCell(data, len, old(data[..]), es, cp, tmp);
        if cp[0] == '?' {
          newp := cp[1..];
        }
        len := len + 4;
        if |newp| >= |cp| {
          return Refused, len;
        }
        newp := DropBlanks(newp);
        ThenTwice(es, CellEdits(cp), ParseCells(newp, rest));
        es := es + CellEdits(cp);
      }
    }
    assert es + [] == es;
    v := Parsed;
  }

  method DropBlanks(s: string) returns (r: string)
    ensures r == SkipBlanks(s)
  {
    r := s;
    while r != "" && r[0] == ' '
      invariant SkipBlanks(r) == SkipBlanks(s)
      decreases |r|
    {
      r := r[1..];
    }
  }

  method ReadBytes(cur0: string, rest0: seq<string>, data: array<byte>) returns (v: Verdict, len: nat)
    requires data.Length >= |ParseBytes(cur0, rest0).edits|
    modifies data
    ensures v == ParseBytes(cur0, rest0).verdict
    ensures len == |ParseBytes(cur0, rest0).edits| && Edited(old(data[..]), ParseBytes(cur0, rest0).edits, data[..])
  {
    var newp, rest := cur0, rest0;
    ghost var es: seq<Edit> := [];
    len := 0;
    ThenTwice([], [], ParseBytes(cur0, rest0));
    while true
      invariant len == |es| && ParseBytes(cur0, rest0) == Then(es, ParseBytes(newp, rest))
      invariant Edited(old(data[..]), es, data[..])
      decreases |rest|, |newp|
    {
      var s := DropBlanks(newp);
      assert es + [] == es;
      if s == "" {
        if rest == [] {
          return PastEnd, len;
        }
        newp, rest := rest[0], rest[1..];
      } else if Digit(s[0]) >= 16 {
        return (if s[0] != ']' then Refused else Parsed), len;
      } else {
        Advances(s);
        var tmp;
        tmp, newp := StrToUll(s, 16);
        data[len] := LowByte(tmp);
        len := len + 1;
        ThenTwice(es, [Some(LowByte(tmp))], ParseBytes(newp, rest));
        es := es + [Some(LowByte(tmp))];
      }
    }
  }

  method CopyString(s: string, data: array<byte>, len: nat, ghost was: seq<byte>, ghost es: seq<Edit>)
    requires len == |es| && len + |s| + 1 <= data.Length && Edited(was, es, data[..])
    modifies data
    ensures Edited(was, es + Copied(s), data[..])
  {
    for i := 0 to |s| + 1
      invariant Edited(was, es + Copied(s)[..i], data[..])
    {
      data[len + i] := At(s, i) as int % 256;
    }
    assert Copied(s)[..|s| + 1] == Copied(s);
  }

  method ReadStrings(args: seq<string>, data: array<byte>) returns (len: nat)
    requires data.Length >= |ParseStrings(args)|
    modifies data
    ensures len == |ParseStrings(args)| && Edited(old(data[..]), ParseStrings(args), data[..])
  {
    ghost var es: seq<Edit> := [];
    var i := 0;
    len := 0;
    while i < |args|
      invariant 0 <= i <= |args| && len == |es|
      invariant ParseStrings(args) == es + ParseStrings(args[i..])
      invariant Edited(old(data[..]), es, data[..])
    {
      NextString(args, i, es);
      CopyString(args[i], data, len, old(data[..]), es);
      len := len + |args[i]| + 1;
      es := es + Copied(args[i]);
      i := i + 1;
    }
    assert ParseStrings(args) == es;
  }

  lemma NextString(args: seq<string>, i: nat, es: seq<Edit>)
    requires i < |args|
    ensures es + ParseStrings(args[i..]) == es + Copied(args[i]) + ParseStrings(args[i + 1..])
  {
    assert args[i..][1..] == args[i + 1..];
  }

  /** `fdt_parse_prop`, into a buffer that has room for what the text says. */
  method FdtParseProp(newval: seq<string>, data: array<byte>) returns (v: Verdict, len: nat)
    requires newval != [] && data.Length >= |ParseProp(newval).edits|
    modifies data
    ensures v == ParseProp(newval).verdict
    ensures len == |ParseProp(newval).edits| && Edited(old(data[..]), ParseProp(newval).edits, data[..])
  {
    var c := At(newval[0], 0);
    if c == '<' {
      v, len := ReadCells(newval[0][1..], newval[1..], data);
    } else if c == '[' {
      v, len := ReadBytes(newval[0][1..], newval[1..], data);
    } else {
      len := ReadStrings(newval, data);
      v := Parsed;
    }
  }
}
