/**
 S-Records of every type: what the loader makes of a record with the address width of its type, any data that
 fits and the right checksum.
 */
module SRecordKinds {
  import opened Octets
  import opened SRecord
  import opened SRecordLoad

  /** The number of address bytes in a record of that type. */
  function AddressWidth(v: char): nat {
    if v in "0159" then 2 else if v in "28" then 3 else if v in "37" then 4 else 0
  }

  /** Length, address, data and the complement of their sum. */
  function RecordBytes(addr: seq<byte>, data: seq<byte>): seq<byte>
    requires |addr| + |data| < 255
  {
    var len := |addr| + |data| + 1;
    [len] + Covered(len, addr + data)
  }

  function Covered(len: nat, body: seq<byte>): seq<byte> {
    body + [255 - (len + Sum(body)) % 256]
  }

  function RecordText(v: char, addr: seq<byte>, data: seq<byte>): string
    requires |addr| + |data| < 255
  {
    "S" + [v] + HexAll(RecordBytes(addr, data))
  }

  lemma CoveredSum(len: nat, body: seq<byte>)
    ensures (len + Sum(Covered(len, body))) % 256 == 255
  {
    SumAppend(body, [255 - (len + Sum(body)) % 256]);
    SumOne(255 - (len + Sum(body)) % 256);
  }

  lemma TextReads(v: char, addr: seq<byte>, data: seq<byte>)
    requires |addr| + |data| < 255
    ensures var s, len := RecordText(v, addr, data), |addr| + |data| + 1;
            Hex2Bin(s, 2) == len && ReadBytes(s, 4, len) == Covered(len, addr + data)
  {
    var s, len, bytes := RecordText(v, addr, data), |addr| + |data| + 1, RecordBytes(addr, data);
    var body := Covered(len, addr + data);
    assert s[2..2 + 2 * |bytes|] == HexAll(bytes);
    HexAllReads(bytes, s, 2, 0);
    forall i | 0 <= i < |body| ensures Hex2Bin(s, 4 + 2 * i) == body[i] {
      HexAllReads(bytes, s, 2, i + 1);
      assert bytes[i + 1] == body[i] && 4 + 2 * i == 2 + 2 * (i + 1);
    }
    ReadBytesExact(s, 4, body);
  }

  lemma CheckedIs(code: int, addr: seq<byte>, data: seq<byte>, len: nat, bytes: seq<byte>)
    requires |bytes| == |addr| + |data| + 1 && addr + data <= bytes && (len + Sum(bytes)) % 256 == 255
    ensures Checked(code, |addr|, |data|, len, bytes, |data|) == Record(code, Value(addr), |data|, data)
  {
    assert bytes[..|addr|] == addr && bytes[|addr|..|addr| + |data|] == data;
  }

  /** A count record carries no data. */
  predicate Carries(v: char, addr: seq<byte>, data: seq<byte>) {
    |addr| == AddressWidth(v) && |addr| + |data| < 255 && v in "01235789" && (v == '5' ==> data == [])
  }

  lemma KindIs(v: char)
    requires v in "01235789"
    ensures KindOf(v).0 >= 0 && KindOf(v).1 == AddressWidth(v)
    ensures IsData(KindOf(v).0) <==> v in "123"
    ensures KindOf(v).0 in {SREC_END2, SREC_END3, SREC_END4} <==> v in "789"
  {
    assert v in "0" + "1" + "2" + "3" + "5" + "7" + "8" + "9";
  }

  lemma StartsAt(s: string)
    requires |s| > 1 && s[0] == 'S'
    ensures Decode(s) == DecodeAt(s, 1)
  {
    assert AfterS(s, TEXT_START) == 1;
  }

  lemma DecodeAs(s: string, v: char, code: int, alen: nat, len: nat, n: nat, bytes: seq<byte>)
    requires |s| > 1 && s[1] == v && KindOf(v) == (code, alen) && code >= 0
    requires len == alen + n + 1 && (v == '5' ==> n == 0)
    requires Hex2Bin(s, 2) == len && ReadBytes(s, 4, len) == bytes
    ensures DecodeAt(s, 1) == Checked(code, alen, n, len, bytes, n)
  {
  }

  lemma TextDecodesAs(s: string, v: char, code: int, addr: seq<byte>, data: seq<byte>, len: nat, bytes: seq<byte>)
    requires |s| > 1 && s[0] == 'S' && s[1] == v && KindOf(v) == (code, |addr|) && code >= 0
    requires len == |addr| + |data| + 1 && (v == '5' ==> data == [])
    requires Hex2Bin(s, 2) == len && ReadBytes(s, 4, len) == bytes
    requires |bytes| == len && addr + data <= bytes && (len + Sum(bytes)) % 256 == 255
    ensures Decode(s) == Record(code, Value(addr), |data|, data)
  {
    StartsAt(s);
    DecodeAs(s, v, code, |addr|, len, |data|, bytes);
    CheckedIs(code, addr, data, len, bytes);
  }

  lemma TextShape(v: char, addr: seq<byte>, data: seq<byte>)
    requires |addr| + |data| < 255
    ensures var s, len := RecordText(v, addr, data), |addr| + |data| + 1;
            && |s| > 1 && s[0] == 'S' && s[1] == v
            && |Covered(len, addr + data)| == len && addr + data <= Covered(len, addr + data)
  {
  }

  lemma KindDecodes(v: char, addr: seq<byte>, data: seq<byte>)
    requires Carries(v, addr, data)
    ensures KindOf(v).0 >= 0 && Decode(RecordText(v, addr, data)) == Record(KindOf(v).0, Value(addr), |data|, data)
  {
    var s, len := RecordText(v, addr, data), |addr| + |data| + 1;
    TextReads(v, addr, data);
    KindIs(v);
    CoveredSum(len, addr + data);
    TextShape(v, addr, data);
    TextDecodesAs(s, v, KindOf(v).0, addr, data, len, Covered(len, addr + data));
  }

  /**
   Data records of all three widths are stored, end records of all three end the download with their address as
   entry, and start and count records change nothing.
   */
  lemma RecordHandled(v: char, addr: seq<byte>, data: seq<byte>, offset: int, st: Load)
    requires Carries(v, addr, data)
    ensures Handle(RecordText(v, addr, data), offset, st) ==
            if v in "123" then Continue(Store(st, Value(addr), data, offset))
            else if v in "789" then Stop(Loaded(st, Value(addr)))
            else Continue(st)
  {
    KindDecodes(v, addr, data);
    KindIs(v);
  }

  /** Addresses are big-endian. */
  lemma AddressIs(addr: seq<byte>)
    requires 2 <= |addr| <= 4
    ensures |addr| == 2 ==> Value(addr) == (addr[0] as int) * 0x100 + addr[1]
    ensures |addr| == 3 ==> Value(addr) == (addr[0] as int) * 0x1_0000 + (addr[1] as int) * 0x100 + addr[2]
    ensures |addr| == 4 ==>
              Value(addr) ==
              (addr[0] as int) * 0x100_0000 + (addr[1] as int) * 0x1_0000 + (addr[2] as int) * 0x100 + addr[3]
  {
    if |addr| == 4 {
      ValueFour(addr);
    } else {
      assert addr[..2] == [] + [addr[0]] + [addr[1]];
      ValueNext([], addr[0]);
      ValueNext([] + [addr[0]], addr[1]);
      if |addr| == 3 {
        assert addr == addr[..2] + [addr[2]];
        ValueNext(addr[..2], addr[2]);
      } else {
        assert addr[..2] == addr;
      }
    }
  }

  /** Any other type aborts the download. */
  lemma OtherRefused(v: char, addr: seq<byte>, data: seq<byte>, offset: int, st: Load)
    requires v !in "01235789" && |addr| + |data| < 255
    ensures Handle(RecordText(v, addr, data), offset, st) == Stop(Aborted(st))
  {
    StartsAt(RecordText(v, addr, data));
    TextReads(v, addr, data);
    assert v != '0' && v != '1' && v != '2' && v != '3' && v != '5' && v != '7' && v != '8' && v != '9';
  }

  lemma {:induction false} NoStart(line: string, p: nat)
    requires p <= |line| && 'S' !in line[p..]
    ensures AfterS(line, p) == |line|
    decreases |line| - p
  {
    if p < |line| {
      assert line[p] == line[p..][0] && line[p + 1..] == line[p..][1..];
      NoStart(line, p + 1);
    }
  }

  /** A line without the letter that begins records changes nothing. */
  lemma NoRecord(line: string, offset: int, st: Load)
    requires 'S' !in line
    ensures Handle(line, offset, st) == Continue(st)
  {
    assert line[0..] == line;
    NoStart(line, 0);
  }

  lemma WrongSum(len: nat, body: seq<byte>, check: byte)
    requires check != 255 - (len + Sum(body)) % 256
    ensures (len + Sum(body + [check])) % 256 != 255
  {
    SumAppend(body, [check]);
    SumOne(check);
  }

  lemma WrongDecodes(s: string, v: char, code: int, alen: nat, len: nat, n: nat, at: nat, bytes: seq<byte>)
    requires |s| > 1 && s[0] == 'S' && s[1] == v && KindOf(v) == (code, alen) && code >= 0
    requires len == alen + n + 1 && (v == '5' ==> n == 0)
    requires at == 4 && Hex2Bin(s, 2) == len && ReadBytes(s, at, len) == bytes
    requires |bytes| == len && (len + Sum(bytes)) % 256 != 255
    ensures Decode(s) == Refused(SREC_E_BADCHKS)
  {
    StartsAt(s);
    DecodeAs(s, v, code, alen, len, n, bytes);
  }

  lemma RefusedAborts(s: string, code: int, offset: int, st: Load)
    requires Decode(s) == Refused(code) && code < 0
    ensures Handle(s, offset, st) == Stop(Aborted(st))
  {
  }

  /** A record with any other checksum aborts the download; its bytes stand in the text from `at` on. */
  lemma WrongChecksum(s: string, v: char, body: seq<byte>, check: byte, len: nat, at: nat, offset: int, st: Load)
    requires v in "01235789" && AddressWidth(v) <= |body| < 255 && (v == '5' ==> |body| == 2)
    requires |s| > 1 && s[0] == 'S' && s[1] == v && len == |body| + 1 && at == 4
    requires Hex2Bin(s, 2) == len && ReadBytes(s, at, len) == body + [check]
    requires check != 255 - (len + Sum(body)) % 256
    ensures Handle(s, offset, st) == Stop(Aborted(st))
  {
    KindIs(v);
    WrongSum(len, body, check);
    WrongDecodes(s, v, KindOf(v).0, KindOf(v).1, len, |body| - KindOf(v).1, at, body + [check]);
    RefusedAborts(s, SREC_E_BADCHKS, offset, st);
  }

  // ----- lines

  predicate Ordinary(line: string) {
    forall i :: 0 <= i < |line| ==> line[i] !in "\r\n\0" && line[i] != 3 as char
  }

  /** How a line of ordinary characters ends. */
  function Ended(input: string, line: string, p: nat): Got
    requires p <= |input|
  {
    if |line| == 516 then Got(line, p)
    else if p == |input| then Quiet
    else if input[p] == '\r' || input[p] == '\n' then Got(line, p + 1)
    else Cancel
  }

  /**
   A line ends at a carriage return or a newline or after 516 characters; a NUL or ctrl-C cancels the download,
   and the end of the input leaves it waiting.
   */
  lemma {:induction false} LineEnds(input: string, p: nat, buf: string, line: string)
    requires Ordinary(line) && |buf| + |line| <= 516 && p + |line| <= |input| && input[p..p + |line|] == line
    requires |buf| + |line| == 516 || p + |line| == |input| || !Ordinary([input[p + |line|]])
    ensures ReadRecord(input, p, buf) == Ended(input, buf + line, p + |line|)
    decreases |line|
  {
    if line == "" {
      assert buf + line == buf;
      assert p < |input| && !Ordinary([input[p]]) ==> input[p] in "\r\n\0" || input[p] == 3 as char;
    } else {
      assert input[p] == line[0];
      assert input[p + 1..p + |line|] == line[1..];
      LineEnds(input, p + 1, buf + [line[0]], line[1..]);
      assert buf + [line[0]] + line[1..] == buf + line;
    }
  }
}
