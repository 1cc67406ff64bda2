/**
 Motorola S-Records: the line that `save_serial` prints for a chunk of memory, and `srec_decode`, which
 reads one line. Decoding inverts printing exactly below 2^32.
 */
module SRecord {
  import opened Arithmetic
  import opened Octets
  import CText

  const SREC_BYTES_PER_RECORD := 16
  const SREC_MAXRECLEN := 516
  const TWO32 := 0x1_0000_0000

  const SREC_START := 0
  const SREC_DATA2 := 1
  const SREC_DATA3 := 2
  const SREC_DATA4 := 3
  const SREC_COUNT := 5
  const SREC_END4 := 7
  const SREC_END3 := 8
  const SREC_END2 := 9
  const SREC_EMPTY := 10
  const SREC_E_BADTYPE := -1
  const SREC_E_NOSREC := -2
  const SREC_E_BADCHKS := -3

  // ----- hexadecimal

  function HexDigit(n: nat): char
    requires n < 16
  {
    CText.HexDigit(n, true)
  }

  /** `hex1_bin`: the value of a digit of either case, or -1. */
  function Hex1Bin(c: char): int {
    if CText.Digit(c) < 16 then CText.Digit(c) else -1
  }

  lemma HexDigitReads(n: nat)
    requires n < 16
    ensures Hex1Bin(HexDigit(n)) == n
  {
    CText.HexDigitReads(n, true);
  }

  function Hex2(b: byte): (s: string)
    ensures |s| == 2
  {
    [HexDigit(b / 16), HexDigit(b % 16)]
  }

  function HexAll(bs: seq<byte>): (s: string)
    ensures |s| == 2 * |bs|
  {
    if bs == [] then [] else HexAll(bs[..|bs| - 1]) + Hex2(bs[|bs| - 1])
  }

  lemma {:induction false} HexAllAppend(a: seq<byte>, b: seq<byte>)
    ensures HexAll(a + b) == HexAll(a) + HexAll(b)
  {
    if b == [] {
      assert a + b == a;
    } else {
      assert (a + b)[..|a + b| - 1] == a + b[..|b| - 1];
      HexAllAppend(a, b[..|b| - 1]);
    }
  }

  lemma HexOne(b: byte)
    ensures HexAll([b]) == Hex2(b)
  {
    assert [b][..0] == [] && HexAll([]) == "";
  }

  /** `hex2_bin` at position `p`; past the end of the text the terminating NUL is no digit. */
  function Hex2Bin(s: string, p: nat): (v: int)
    ensures -1 <= v < 256
  {
    if p + 1 >= |s| then -1
    else if Hex1Bin(s[p]) < 0 || Hex1Bin(s[p + 1]) < 0 then -1
    else 16 * Hex1Bin(s[p]) + Hex1Bin(s[p + 1])
  }

  lemma Hex2Reads(b: byte, s: string, p: nat)
    requires p + 2 <= |s| && s[p] == Hex2(b)[0] && s[p + 1] == Hex2(b)[1]
    ensures Hex2Bin(s, p) == b
  {
    HexDigitReads(b / 16);
    HexDigitReads(b % 16);
  }

  /** Byte `i` of hexadecimal text reads back. */
  lemma {:induction false} HexAllReads(bs: seq<byte>, s: string, p: nat, i: nat)
    requires i < |bs| && p + 2 * |bs| <= |s| && s[p..p + 2 * |bs|] == HexAll(bs)
    ensures Hex2Bin(s, p + 2 * i) == bs[i]
    decreases |bs|
  {
    var n := |bs| - 1;
    var h := HexAll(bs);
    assert h == HexAll(bs[..n]) + Hex2(bs[n]);
    if i < n {
      assert s[p..p + 2 * n] == s[p..p + 2 * |bs|][..2 * n] == HexAll(bs[..n]);
      HexAllReads(bs[..n], s, p, i);
    } else {
      assert s[p + 2 * i] == h[2 * i] && s[p + 2 * i + 1] == h[2 * i + 1];
      Hex2Reads(bs[i], s, p + 2 * i);
    }
  }

  // ----- addresses

  /** Big-endian value. */
  function Value(bs: seq<byte>): nat {
    if bs == [] then 0 else 256 * Value(bs[..|bs| - 1]) + bs[|bs| - 1]
  }

  lemma ValueNext(bs: seq<byte>, b: byte)
    ensures Value(bs + [b]) == 256 * Value(bs) + b
  {
    assert (bs + [b])[..|bs|] == bs;
  }

  lemma ValueFour(b: seq<byte>)
    requires |b| == 4
    ensures Value(b) == Word(b)
  {
    assert b == [] + [b[0]] + [b[1]] + [b[2]] + [b[3]];
    ValueNext([], b[0]);
    ValueNext([] + [b[0]], b[1]);
    ValueNext([] + [b[0]] + [b[1]], b[2]);
    ValueNext([] + [b[0]] + [b[1]] + [b[2]], b[3]);
  }

  lemma AddressValue(a: nat)
    requires a < TWO32
    ensures Value(BigEndian(a)) == a
  {
    ValueFour(BigEndian(a));
    BigEndianBack(a);
  }

  lemma {:induction false} ValueBelow(bs: seq<byte>)
    ensures Value(bs) < CText.Pow16(2 * |bs|)
  {
    if bs != [] {
      ValueBelow(bs[..|bs| - 1]);
      assert CText.Pow16(2 * |bs|) == 256 * CText.Pow16(2 * |bs[..|bs| - 1]|);
    }
  }

  /** The number of hexadecimal digits. */
  function HexLen(a: nat): (n: nat)
    ensures n >= 1
  {
    |CText.Hex(a)|
  }

  /** `%08lX` prints at least eight digits, and all there are. */
  function Width(a: nat): (w: nat)
    ensures w >= 8
  {
    if HexLen(a) < 8 then 8 else HexLen(a)
  }

  function AddressText(a: nat): (s: string)
    ensures |s| == Width(a)
  {
    CText.HexPad(a, Width(a), true)
  }

  lemma WidthIs(a: nat)
    ensures Width(a) == 8 <==> a < TWO32
    ensures a < TWO64 ==> Width(a) <= 16
  {
    CText.HexLength(a, 8);
    CText.HexLength(a, 16);
    CText.PowBounds();
  }

  lemma PadByte(v: nat, n: nat)
    ensures CText.HexPad(v, n + 2, true) == CText.HexPad(v / 256, n, true) + Hex2(v % 256)
  {
    assert v / 16 / 16 == v / 256 && v / 16 % 16 == v % 256 / 16 && v % 16 == v % 256 % 16;
    assert CText.HexPad(v, n + 2, true) == CText.HexPad(v / 16, n + 1, true) + [HexDigit(v % 16)];
    assert CText.HexPad(v / 16, n + 1, true) == CText.HexPad(v / 256, n, true) + [HexDigit(v / 16 % 16)];
  }

  lemma HexAllFour(b: seq<byte>)
    requires |b| == 4
    ensures HexAll(b) == Hex2(b[0]) + Hex2(b[1]) + Hex2(b[2]) + Hex2(b[3])
  {
    assert b == [b[0]] + [b[1]] + [b[2]] + [b[3]];
    HexAllAppend([b[0]] + [b[1]] + [b[2]], [b[3]]);
    HexAllAppend([b[0]] + [b[1]], [b[2]]);
    HexAllAppend([b[0]], [b[1]]);
    HexOne(b[0]);
    HexOne(b[1]);
    HexOne(b[2]);
    HexOne(b[3]);
  }

  lemma PadBytes(v: nat, x: nat, y: nat, z: nat)
    requires x == v / 256 && y == x / 256 && z == y / 256
    ensures CText.HexPad(v, 8, true) == Hex2(z % 256) + Hex2(y % 256) + Hex2(x % 256) + Hex2(v % 256)
  {
    PadByte(v, 6);
    PadByte(x, 4);
    PadByte(y, 2);
    PadByte(z, 0);
    assert CText.HexPad(z / 256, 0, true) == "";
  }

  /** The last eight digits are those of the low four bytes. */
  lemma PadWord(v: nat)
    ensures CText.HexPad(v, 8, true) == HexAll(BigEndian(v))
  {
    PadBytes(v, v / 0x100, v / 0x1_0000, v / 0x100_0000);
    HexAllFour(BigEndian(v));
  }

  lemma ShortAddress(a: nat)
    requires a < TWO32
    ensures AddressText(a) == HexAll(BigEndian(a))
  {
    WidthIs(a);
    PadWord(a);
  }

  // ----- srec_decode

  /** Result code, address, the count that the code computes, which can be negative, and the data. */
  datatype Record = Record(code: int, addr: nat, count: int, data: seq<byte>)

  function Refused(code: int): Record {
    Record(code, 0, 0, [])
  }

  /** The position after the first 'S' from `p` on, or the end of the text. */
  function AfterS(s: string, p: nat): (q: nat)
    requires p <= |s|
    ensures p <= q <= |s|
    decreases |s| - p
  {
    if p == |s| then p else if s[p] == 'S' then p + 1 else AfterS(s, p + 1)
  }

  /** `n` bytes in hexadecimal from `p` on; fewer if one is not readable. */
  function ReadBytes(s: string, p: nat, n: nat): (bs: seq<byte>)
    ensures |bs| <= n
    decreases n
  {
    if n == 0 || Hex2Bin(s, p) < 0 then [] else [Hex2Bin(s, p) as byte] + ReadBytes(s, p + 2, n - 1)
  }

  /** Result code and number of address bytes of a record type, or a negative code. */
  function KindOf(v: char): (int, nat) {
    match v
    case '0' => (SREC_START, 2)
    case '1' => (SREC_DATA2, 2)
    case '2' => (SREC_DATA3, 3)
    case '3' => (SREC_DATA4, 4)
    case '5' => (SREC_COUNT, 2)
    case '7' => (SREC_END4, 4)
    case '8' => (SREC_END3, 3)
    case '9' => (SREC_END2, 2)
    case _ => (SREC_E_BADTYPE, 0)
  }

  const TEXT_START := 0

  function Decode(s: string): Record {
    var p := AfterS(s, TEXT_START);
    if p == |s| then Refused(SREC_EMPTY) else DecodeAt(s, p)
  }

  /** The data count: what the length byte leaves for data, which is nothing for a count record. */
  function DataCount(v: char, length: int): int {
    if v == '5' then 0 else length - KindOf(v).1 - 1
  }

  /** The record whose type character is at `p`. */
  function DecodeAt(s: string, p: nat): Record
    requires p < |s|
  {
    var length := Hex2Bin(s, p + 1);
    var (code, alen) := KindOf(s[p]);
    if length < 0 then Refused(SREC_E_NOSREC)
    else if code < 0 then Refused(code)
    else
      var count := DataCount(s[p], length);
      var n := if count < 0 then 0 else count;
      Checked(code, alen, count, length, ReadBytes(s, p + 3, alen + n + 1), n)
  }

  /** Address, data and checksum bytes of a record with the given length byte. */
  function Checked(code: int, alen: nat, count: int, length: nat, bytes: seq<byte>, n: nat): Record {
    if |bytes| < alen + n + 1 then Refused(SREC_E_NOSREC)
    else if (length + Sum(bytes)) % 256 != 255 then Refused(SREC_E_BADCHKS)
    else Record(code, Value(bytes[..alen]), count, bytes[alen..alen + n])
  }

  /**
   The count of an accepted record is a length to copy, that of its data, just when its length byte
   covers the address and the checksum.
   */
  lemma CountInRangeIff(s: string, p: nat)
    requires p < |s| && DecodeAt(s, p).code >= 0 && s[p] != '5'
    ensures var d := DecodeAt(s, p);
            (d.count >= 0 <==> Hex2Bin(s, p + 1) >= KindOf(s[p]).1 + 1) && (d.count >= 0 ==> d.count == |d.data|)
  {
  }

  lemma CheckedBelow(code: int, alen: nat, count: int, length: nat, bytes: seq<byte>, n: nat)
    requires alen <= 4
    ensures Checked(code, alen, count, length, bytes, n).addr < TWO32
  {
    CText.PowBounds();
    if alen <= |bytes| {
      ValueBelow(bytes[..alen]);
      CText.PowGrows(2 * alen, 8);
    }
  }

  lemma AddressBelow(s: string)
    ensures Decode(s).addr < TWO32
  {
    var p := AfterS(s, TEXT_START);
    if p < |s| {
      var length := Hex2Bin(s, p + 1);
      var (code, alen) := KindOf(s[p]);
      var count := DataCount(s[p], length);
      var n := if count < 0 then 0 else count;
      if length >= 0 && code >= 0 {
        CheckedBelow(code, alen, count, length, ReadBytes(s, p + 3, alen + n + 1), n);
      }
    }
  }

  // ----- save_serial

  /** The complement of the sum of the length, the low four address bytes and the data. */
  function Checksum(a: nat, data: seq<byte>): byte {
    255 - (Sum([(|data| + 5) % 256]) + Sum(BigEndian(a)) + Sum(data)) % 256
  }

  /** A data record as it is printed. */
  function Line(a: nat, data: seq<byte>): (s: string)
    requires |data| <= 250
    ensures |s| == 6 + Width(a) + 2 * |data|
  {
    "S3" + (Hex2(|data| + 5) + AddressText(a) + HexAll(data) + Hex2(Checksum(a, data)))
  }

  lemma {:induction false} ReadBytesExact(s: string, p: nat, bs: seq<byte>)
    requires forall i :: 0 <= i < |bs| ==> Hex2Bin(s, p + 2 * i) == bs[i]
    ensures ReadBytes(s, p, |bs|) == bs
    decreases |bs|
  {
    if bs != [] {
      forall i | 0 <= i < |bs[1..]| ensures Hex2Bin(s, p + 2 + 2 * i) == bs[1..][i] {
        assert p + 2 + 2 * i == p + 2 * (i + 1);
      }
      ReadBytesExact(s, p + 2, bs[1..]);
      assert Hex2Bin(s, p + 2 * 0) == bs[0];
    }
  }

  lemma {:induction false} ReadBytesAt(s: string, p: nat, n: nat, i: nat)
    requires i < |ReadBytes(s, p, n)|
    ensures ReadBytes(s, p, n)[i] == Hex2Bin(s, p + 2 * i)
    decreases n
  {
    if i > 0 {
      ReadBytesAt(s, p + 2, n - 1, i - 1);
      assert p + 2 + 2 * (i - 1) == p + 2 * i;
    }
  }

  /** The bytes of a record: length, address, data, checksum. */
  function LineBytes(a: nat, data: seq<byte>): seq<byte>
    requires |data| <= 250
  {
    [|data| + 5] + Body(a, data)
  }

  function Body(a: nat, data: seq<byte>): seq<byte> {
    BigEndian(a) + data + [Checksum(a, data)]
  }

  lemma HexParts(x: byte, y: seq<byte>, z: seq<byte>, w: byte)
    ensures HexAll([x] + (y + z + [w])) == Hex2(x) + HexAll(y) + HexAll(z) + Hex2(w)
  {
    HexAllAppend([x], y + z + [w]);
    HexAllAppend(y + z, [w]);
    HexAllAppend(y, z);
    HexOne(x);
    HexOne(w);
  }

  /** Below 2^32 the text is that of the bytes. */
  lemma LineText(a: nat, data: seq<byte>)
    requires a < TWO32 && |data| <= 250
    ensures Line(a, data) == "S3" + HexAll(LineBytes(a, data))
  {
    ShortAddress(a);
    HexParts(|data| + 5, BigEndian(a), data, Checksum(a, data));
  }

  lemma LineReads(a: nat, data: seq<byte>, i: nat)
    requires a < TWO32 && |data| <= 250 && i < |data| + 6
    ensures Hex2Bin(Line(a, data), 2 + 2 * i) == LineBytes(a, data)[i]
  {
    var s, bytes := Line(a, data), LineBytes(a, data);
    LineText(a, data);
    assert s[2..2 + 2 * |bytes|] == HexAll(bytes);
    HexAllReads(bytes, s, 2, i);
  }

  lemma BodyReads(s: string, a: nat, data: seq<byte>)
    requires |data| <= 250
    requires forall i :: 0 <= i < |data| + 6 ==> Hex2Bin(s, 2 + 2 * i) == LineBytes(a, data)[i]
    ensures Hex2Bin(s, 2) == |data| + 5 && ReadBytes(s, 4, |data| + 5) == Body(a, data)
  {
    var body, bytes := Body(a, data), LineBytes(a, data);
    assert bytes[0] == |data| + 5;
    assert Hex2Bin(s, 2 + 2 * 0) == bytes[0];
    forall i | 0 <= i < |body| ensures Hex2Bin(s, 4 + 2 * i) == body[i] {
      assert bytes[i + 1] == body[i];
      assert 4 + 2 * i == 2 + 2 * (i + 1);
    }
    ReadBytesExact(s, 4, body);
  }

  lemma BodySum(a: nat, data: seq<byte>)
    requires |data| <= 250
    ensures (|data| + 5 + Sum(Body(a, data))) % 256 == 255
  {
    var sum := Checksum(a, data);
    SumAppend(BigEndian(a) + data, [sum]);
    SumAppend(BigEndian(a), data);
    SumOne(|data| + 5);
    SumOne(sum);
  }

  lemma BytesSum(a: nat, data: seq<byte>)
    requires |data| <= 250
    ensures Sum(LineBytes(a, data)) % 256 == 255
  {
    BodySum(a, data);
    SumAppend([|data| + 5], Body(a, data));
    SumOne(|data| + 5);
  }

  /** Below 2^32 the octets printed sum to 255 modulo 256. */
  lemma LineSum(a: nat, data: seq<byte>)
    requires a < TWO32 && |data| <= 250
    ensures Line(a, data) == "S3" + HexAll(LineBytes(a, data)) && Sum(LineBytes(a, data)) % 256 == 255
  {
    LineText(a, data);
    BytesSum(a, data);
  }

  lemma BodyChecked(a: nat, data: seq<byte>)
    requires a < TWO32 && |data| <= 250
    ensures Checked(SREC_DATA4, 4, |data|, |data| + 5, Body(a, data), |data|) == Record(SREC_DATA4, a, |data|, data)
  {
    var body := Body(a, data);
    BodySum(a, data);
    assert body[..4] == BigEndian(a) && body[4..4 + |data|] == data;
    AddressValue(a);
  }

  lemma TextDecodes(s: string, a: nat, data: seq<byte>)
    requires a < TWO32 && |data| <= 250 && |s| > 4 && s[0] == 'S' && s[1] == '3'
    requires Hex2Bin(s, 2) == |data| + 5 && ReadBytes(s, 4, |data| + 5) == Body(a, data)
    ensures Decode(s) == Record(SREC_DATA4, a, |data|, data)
  {
    assert AfterS(s, TEXT_START) == 1;
    BodyChecked(a, data);
  }

  lemma LineDecodes(a: nat, data: seq<byte>)
    requires a < TWO32 && |data| <= 250
    ensures Decode(Line(a, data)) == Record(SREC_DATA4, a, |data|, data)
  {
    forall i | 0 <= i < |data| + 6 ensures Hex2Bin(Line(a, data), 2 + 2 * i) == LineBytes(a, data)[i] {
      LineReads(a, data, i);
    }
    BodyReads(Line(a, data), a, data);
    TextDecodes(Line(a, data), a, data);
  }

  /** A printed record decodes to what was meant exactly below 2^32. */
  lemma LineDecodesIff(a: nat, data: seq<byte>)
    requires |data| <= 250
    ensures Decode(Line(a, data)) == Record(SREC_DATA4, a, |data|, data) <==> a < TWO32
  {
    AddressBelow(Line(a, data));
    if a < TWO32 {
      LineDecodes(a, data);
    }
  }
}
