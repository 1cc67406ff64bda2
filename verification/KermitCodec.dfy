/**
 Character-level rules of the Kermit download (`loadb`): printable encoding of small
 numbers, the six-bit block check, control-character quoting, and the shape of a packet.
 Masks and shifts of the C code are written as arithmetic on bytes.
 */
module KermitCodec {
  import opened Arithmetic
  import opened Octets

  const START_CHAR: byte := 0x01
  const ETX_CHAR: byte := 0x03
  const END_CHAR: byte := 0x0D
  const SPACE: byte := 0x20
  const K_ESCAPE: byte := 0x23
  const SEND_TYPE: byte := 0x53 // 'S'
  const DATA_TYPE: byte := 0x44 // 'D'
  const ACK_TYPE: byte := 0x59 // 'Y'
  const NACK_TYPE: byte := 0x4E // 'N'
  const BREAK_TYPE: byte := 0x42 // 'B'

  function ToChar(x: int): byte {
    (x + SPACE) % 256
  }

  function UnToChar(c: byte): byte {
    (c - SPACE) % 256
  }

  /** `(c & 0xE0) == 0`: the receiver refuses such a character inside a packet. */
  predicate IsControl(c: byte) {
    c < SPACE
  }

  predicate Printable(s: seq<byte>) {
    forall i :: 0 <= i < |s| ==> !IsControl(s[i])
  }

  /** `(total + ((total >> 6) & 3)) & 0x3f`; floor division is the arithmetic shift. */
  function Check6(total: int): (r: int)
    ensures 0 <= r < 64
  {
    (total + (total / 64) % 4) % 64
  }

  // ----- the block check and the signedness of `char`

  /** The value a C `char` with the given bit pattern has when `char` is signed. */
  function CharValue(c: byte, signedChar: bool): int {
    if signedChar && c >= 128 then c - 256 else c
  }

  ghost function CharSum(s: seq<byte>, signedChar: bool): int {
    if s == [] then 0 else CharSum(s[..|s| - 1], signedChar) + CharValue(s[|s| - 1], signedChar)
  }

  /**
   `chk1` adds `char` values, the receiver adds `c & 0xff`. The block checks agree whatever
   the signedness of `char` is, because both depend on the byte sum modulo 256 only.
   */
  lemma CheckIgnoresSignedness(s: seq<byte>, signedChar: bool)
    ensures Check6(CharSum(s, signedChar)) == Check6(Sum(s))
  {
    CharSumMod256(s, signedChar);
    Check6Mod256(CharSum(s, signedChar));
    Check6Mod256(Sum(s));
  }

  lemma {:induction false} CharSumMod256(s: seq<byte>, signedChar: bool)
    ensures CharSum(s, signedChar) % 256 == Sum(s) % 256
  {
    if s != [] {
      var s', c := s[..|s| - 1], s[|s| - 1];
      CharSumMod256(s', signedChar);
      SameMod256(CharSum(s', signedChar), Sum(s'), CharValue(c, signedChar), c);
    }
  }

  lemma SameMod256(x: int, y: int, v: int, w: int)
    requires x % 256 == y % 256 && (v == w || v == w - 256)
    ensures (x + v) % 256 == (y + w) % 256
  {
  }

  lemma Check6Mod256(t: int)
    ensures Check6(t) == Check6(t % 256)
  {
    Check6Shift(t / 256, t % 256);
  }

  lemma Check6Shift(q: int, r: int)
    requires 0 <= r < 256
    ensures Check6(256 * q + r) == Check6(r)
  {
    var a, d := r / 64, r % 64;
    DivModUnique(256 * q + r, 64, 4 * q + a, d);
    DivModUnique(4 * q + a, 4, q, a);
    var x := (r + a) / 64;
    DivModUnique(256 * q + r + a, 64, 4 * q + x, (r + a) % 64);
  }

  // ----- control quoting

  /** `ktrans`: the byte an escaped character stands for. */
  function KTrans(c: byte): byte {
    if (c / 32) % 4 == 2 then c - 64
    else if c % 128 == 63 then c + 64
    else c
  }

  /** What has been decoded so far, and whether the last character was a quote. */
  datatype Decoder = Decoder(escape: bool, out: seq<byte>)

  const EMPTY_DECODER := Decoder(false, [])

  function UnquoteChar(quote: byte, d: Decoder, c: byte): Decoder {
    if d.escape then Decoder(false, d.out + [KTrans(c)])
    else if c == quote then Decoder(true, d.out)
    else Decoder(false, d.out + [c])
  }

  function Unquote(quote: byte, d: Decoder, s: seq<byte>): Decoder {
    if s == [] then d
    else UnquoteChar(quote, Unquote(quote, d, s[..|s| - 1]), s[|s| - 1])
  }

  /** Decoding composes across any split of the text, even between a quote and its character. */
  lemma {:induction false} UnquoteAppend(quote: byte, d: Decoder, a: seq<byte>, b: seq<byte>)
    ensures Unquote(quote, d, a + b) == Unquote(quote, Unquote(quote, d, a), b)
  {
    if b == [] {
      assert a + b == a;
    } else {
      var b' := b[..|b| - 1];
      assert (a + b)[..|a + b| - 1] == a + b';
      UnquoteAppend(quote, d, a, b');
    }
  }

  /** The sender's side: control characters and the quote character travel quoted. */
  function QuoteByte(quote: byte, b: byte): seq<byte> {
    if b % 128 < 32 then [quote, b + 64]
    else if b % 128 == 127 then [quote, b - 64]
    else if b % 128 == quote % 128 then [quote, b]
    else [b]
  }

  function Quote(quote: byte, s: seq<byte>): seq<byte> {
    if s == [] then [] else Quote(quote, s[..|s| - 1]) + QuoteByte(quote, s[|s| - 1])
  }

  /** `ktrans` looks at the low seven bits only. */
  lemma KTransLow(c: byte, h: nat, r: nat)
    requires c == 128 * h + r && r < 128
    ensures KTrans(c) == if 64 <= r < 96 then c - 64 else if r == 63 then c + 64 else c
  {
    assert c / 32 == 4 * h + r / 32;
  }

  lemma QuotedByte(quote: byte, b: byte)
    requires KTrans(quote) == quote
    ensures var e := QuoteByte(quote, b);
            (e == [b] && b != quote) || (|e| == 2 && e[0] == quote && KTrans(e[1]) == b)
  {
    var h, r := b / 128, b % 128;
    KTransLow(quote, quote / 128, quote % 128);
    if r < 32 {
      KTransLow(b + 64, h, r + 64);
    } else if r == 127 {
      KTransLow(b - 64, h, r - 64);
    } else {
      KTransLow(b, h, r);
    }
  }

  lemma UnquotePair(quote: byte, d: Decoder, c: byte)
    requires !d.escape
    ensures Unquote(quote, d, [quote, c]) == Decoder(false, d.out + [KTrans(c)])
  {
    var e := [quote, c];
    assert e[..1] == [quote] && [quote][..0] == [];
    assert Unquote(quote, d, e[..1]) == Decoder(true, d.out);
  }

  lemma UnquoteOne(quote: byte, d: Decoder, b: byte)
    requires KTrans(quote) == quote && !d.escape
    ensures Unquote(quote, d, QuoteByte(quote, b)) == Decoder(false, d.out + [b])
  {
    var e := QuoteByte(quote, b);
    QuotedByte(quote, b);
    if |e| == 2 {
      assert e == [quote, e[1]];
      UnquotePair(quote, d, e[1]);
    } else {
      assert e[..0] == [];
    }
  }

  lemma UnquoteNext(quote: byte, d: Decoder, q: seq<byte>, b: byte, out: seq<byte>)
    requires KTrans(quote) == quote && Unquote(quote, d, q) == Decoder(false, out)
    ensures Unquote(quote, d, q + QuoteByte(quote, b)) == Decoder(false, out + [b])
  {
    UnquoteAppend(quote, d, q, QuoteByte(quote, b));
    UnquoteOne(quote, Decoder(false, out), b);
  }

  lemma {:induction false} UnquoteInvertsQuote(quote: byte, d: Decoder, s: seq<byte>)
    requires KTrans(quote) == quote && !d.escape
    ensures Unquote(quote, d, Quote(quote, s)) == Decoder(false, d.out + s)
  {
    if s == [] {
      assert d.out + s == d.out;
    } else {
      var s', b := s[..|s| - 1], s[|s| - 1];
      UnquoteInvertsQuote(quote, d, s');
      UnquoteNext(quote, d, Quote(quote, s'), b, d.out + s');
      assert d.out + s' + [b] == d.out + s;
    }
  }

  /**
   Quoting round-trips on every byte string exactly for the quote characters that `ktrans`
   leaves alone.
   */
  lemma QuoteRoundTripIff(quote: byte)
    ensures KTrans(quote) == quote <==>
            (forall s: seq<byte> :: Unquote(quote, EMPTY_DECODER, Quote(quote, s)) == Decoder(false, s))
  {
    if KTrans(quote) == quote {
      forall s: seq<byte>
        ensures Unquote(quote, EMPTY_DECODER, Quote(quote, s)) == Decoder(false, s)
      {
        UnquoteInvertsQuote(quote, EMPTY_DECODER, s);
        assert [] + s == s;
      }
    } else {
      NeverDelivered(quote, Quote(quote, [quote]));
      assert Unquote(quote, EMPTY_DECODER, Quote(quote, [quote])) != Decoder(false, [quote]);
    }
  }

  /** With any other quote character, no text at all decodes to one that contains the quote itself. */
  lemma {:induction false} NeverDelivered(quote: byte, text: seq<byte>)
    requires KTrans(quote) != quote
    ensures quote !in Unquote(quote, EMPTY_DECODER, text).out
  {
    if text != [] {
      NeverDelivered(quote, text[..|text| - 1]);
    }
  }

  // ----- packets

  /** The short packet form: mark, length, sequence number, type, data, block check. */
  ghost function Packet(n: int, kind: byte, data: seq<byte>): (p: seq<byte>)
    ensures |p| == |data| + 5
  {
    var body := [ToChar(|data| + 3), ToChar(n), kind] + data;
    [START_CHAR] + body + [ToChar(Check6(Sum(body)))]
  }

  /** The long form: a zero length, and the real length in two base-95 digits with a check of its own. */
  ghost function LongPacket(n: int, kind: byte, data: seq<byte>): (p: seq<byte>)
    ensures |p| == |data| + 8
  {
    var header := [ToChar(0), ToChar(n), kind, ToChar((|data| + 1) / 95), ToChar((|data| + 1) % 95)];
    var body := header + [ToChar(Check6(Sum(header)))] + data;
    [START_CHAR] + body + [ToChar(Check6(Sum(body)))]
  }
}
