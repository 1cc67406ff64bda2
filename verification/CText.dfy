/**
 C strings as the commands read them: the characters before the terminating NUL, cutting a string at a
 separator, and numbers in text.
 */
module CText {
  import opened Arithmetic

  datatype Option<T> = None | Some(value: T)

  /** The character at `i`, or the terminator. */
  function At(s: string, i: nat): char {
    if i < |s| then s[i] else '\0'
  }

  // ----- strsep

  /** What stands before the first `c`, all of it if there is none. */
  function Until(s: string, c: char): string {
    if s == [] || s[0] == c then [] else [s[0]] + Until(s[1..], c)
  }

  /** What stands after the first `c`, if there is one. */
  function After(s: string, c: char): (r: Option<string>)
    ensures r.Some? ==> |r.value| < |s|
  {
    if s == [] then None else if s[0] == c then Some(s[1..]) else After(s[1..], c)
  }

  lemma {:induction false} CutAppend(a: string, c: char, b: string)
    requires c !in a
    ensures Until(a + b, c) == a + Until(b, c) && After(a + b, c) == After(b, c)
  {
    if a == [] {
      assert a + b == b;
    } else {
      CutAppend(a[1..], c, b);
      assert (a + b)[1..] == a[1..] + b;
    }
  }

  lemma CutAt(a: string, c: char, b: string)
    requires c !in a
    ensures Until(a + [c] + b, c) == a && After(a + [c] + b, c) == Some(b)
  {
    CutAppend(a, c, [c] + b);
    assert a + [c] + b == a + ([c] + b);
    assert ([c] + b)[1..] == b;
  }

  lemma CutNone(a: string, c: char)
    requires c !in a
    ensures Until(a, c) == a && After(a, c) == None
  {
    CutAppend(a, c, []);
    assert a + [] == a;
  }

  /** The first piece never holds the separator, and the pieces make up the string. */
  lemma {:induction false} CutParts(s: string, c: char)
    ensures c !in Until(s, c)
    ensures After(s, c).None? ==> s == Until(s, c)
    ensures After(s, c).Some? ==> s == Until(s, c) + [c] + After(s, c).value
  {
    if s != [] && s[0] != c {
      CutParts(s[1..], c);
      assert s == [s[0]] + s[1..];
    }
  }

  /** `strsep` with one separator: the token and what is left, none if the string is used up. */
  method StrSep(s: string, c: char) returns (token: string, rest: Option<string>)
    ensures token == Until(s, c) && rest == After(s, c)
  {
    var i := 0;
    while i < |s| && s[i] != c
      invariant 0 <= i <= |s| && c !in s[..i]
    {
      i := i + 1;
    }
    token := s[..i];
    if i < |s| {
      rest := Some(s[i + 1..]);
      CutAt(token, c, s[i + 1..]);
      assert s == token + [c] + s[i + 1..];
    } else {
      rest := None;
      CutNone(s, c);
      assert token == s;
    }
  }

  // ----- numbers

  /** The value of a hexadecimal digit; more than any base, an `unsigned int`, for another character. */
  function Digit(c: char): nat {
    if '0' <= c <= '9' then c as int - '0' as int
    else if 'a' <= c <= 'f' then c as int - 'a' as int + 10
    else if 'A' <= c <= 'F' then c as int - 'A' as int + 10
    else 0x1_0000_0000
  }

  function Lower(c: char): char {
    if 'A' <= c <= 'Z' then (c as int + 32) as char else c
  }

  /** The base that base 0 stands for, and the length of the prefix that is skipped. */
  function Radix(cp: string, base: nat): nat {
    if base != 0 then base
    else if At(cp, 0) != '0' then 10
    else if Lower(At(cp, 1)) == 'x' && Digit(At(cp, 2)) < 16 then 16
    else 8
  }

  function Prefix(cp: string, radix: nat): nat {
    if radix == 16 && |cp| >= 2 && cp[0] == '0' && Lower(cp[1]) == 'x' then 2 else 0
  }

  predicate AllDigits(s: string, radix: nat) {
    forall k :: 0 <= k < |s| ==> Digit(s[k]) < radix
  }

  /** The number that a string of digits stands for. */
  function Value(s: string, radix: nat): nat {
    if s == [] then 0 else Value(s[..|s| - 1], radix) * radix + Digit(s[|s| - 1])
  }

  /** The digits that `s` begins with. */
  function Digits(s: string, radix: nat): (d: string)
    ensures d <= s
  {
    if s != [] && Digit(s[0]) < radix then [s[0]] + Digits(s[1..], radix) else []
  }

  lemma {:induction false} DigitsAre(digits: string, radix: nat, tail: string)
    requires AllDigits(digits, radix) && Digit(At(tail, 0)) >= radix
    ensures Digits(digits + tail, radix) == digits
  {
    if digits == [] {
      assert digits + tail == tail;
    } else {
      DigitsAre(digits[1..], radix, tail);
      assert (digits + tail)[1..] == digits[1..] + tail;
    }
  }

  function Body(cp: string, base: nat): string {
    cp[Prefix(cp, Radix(cp, base))..]
  }

  /** The number that the text begins with, modulo 2^64. */
  function Number(cp: string, base: nat): nat {
    Value(Digits(Body(cp, base), Radix(cp, base)), Radix(cp, base)) % TWO64
  }

  /** What follows that number. */
  function Rest(cp: string, base: nat): string {
    Body(cp, base)[|Digits(Body(cp, base), Radix(cp, base))|..]
  }

  lemma PrefixedBody(digits: string, tail: string)
    requires digits != "" && Digit(digits[0]) < 16
    ensures var cp := "0x" + digits + tail; Radix(cp, 0) == 16 && Body(cp, 0) == digits + tail
  {
    var cp := "0x" + digits + tail;
    assert cp[0] == '0' && cp[1] == 'x' && cp[2] == digits[0];
    assert cp[2..] == digits + tail;
  }

  /** A hexadecimal number with its prefix is read whole. */
  lemma PrefixedNumber(cp: string, digits: string, tail: string, v: nat)
    requires cp == "0x" + digits + tail && digits != "" && AllDigits(digits, 16) && Digit(At(tail, 0)) >= 16
    requires Value(digits, 16) == v < TWO64
    ensures Number(cp, 0) == v && Rest(cp, 0) == tail
  {
    PrefixedBody(digits, tail);
    DigitsAre(digits, 16, tail);
  }

  lemma WrapStep(v: nat, radix: nat, d: nat)
    ensures (v % TWO64 * radix + d) % TWO64 == (v * radix + d) % TWO64
  {
    var q, r := v / TWO64, v % TWO64;
    var x := r * radix + d;
    DivMod(v, TWO64);
    DivMod(x, TWO64);
    Spread(q, r, radix);
    MulNonNegative(r, radix);
    DivModUnique(v * radix + d, TWO64, q * radix + x / TWO64, x % TWO64);
  }

  lemma Spread(q: nat, r: nat, radix: nat)
    ensures (q * TWO64 + r) * radix == (q * radix) * TWO64 + r * radix
  {
  }

  /** One turn of the loop over the digits. */
  function Push(result: nat, radix: nat, c: char): nat {
    MulNonNegative(result, radix);
    (result * radix + Digit(c)) % TWO64
  }

  lemma NextDigit(s: string, i: nat, radix: nat)
    requires i < |s|
    ensures Push(Value(s[..i], radix) % TWO64, radix, s[i]) == Value(s[..i + 1], radix) % TWO64
  {
    WrapStep(Value(s[..i], radix), radix, Digit(s[i]));
    assert s[..i + 1][..i] == s[..i];
  }

  lemma DigitsEnd(s: string, i: nat, radix: nat)
    requires i <= |s| && radix < 0x1_0000_0000 && AllDigits(s[..i], radix) && (i < |s| ==> Digit(s[i]) >= radix)
    ensures Digits(s, radix) == s[..i]
  {
    DigitsAre(s[..i], radix, s[i..]);
    assert s == s[..i] + s[i..];
  }

  /** The loop of `simple_strtoul` and `simple_strtoull` over the digits. */
  method ReadDigits(s: string, radix: nat) returns (result: nat, i: nat)
    requires radix < 0x1_0000_0000
    ensures i == |Digits(s, radix)| && result == Value(Digits(s, radix), radix) % TWO64
  {
    i, result := 0, 0;
    while i < |s| && Digit(s[i]) < radix
      invariant 0 <= i <= |s| && AllDigits(s[..i], radix)
      invariant result == Value(s[..i], radix) % TWO64
    {
      NextDigit(s, i, radix);
      result := Push(result, radix, s[i]);
      i := i + 1;
    }
    DigitsEnd(s, i, radix);
  }

  method StrToUll(cp: string, base: nat) returns (result: nat, endp: string)
    requires base < 0x1_0000_0000
    ensures result == Number(cp, base) && endp == Rest(cp, base)
  {
    var radix := Radix(cp, base);
    var body := cp[Prefix(cp, radix)..];
    var n;
    result, n := ReadDigits(body, radix);
    endp := body[n..];
  }

  // ----- printing hexadecimal

  function HexDigit(d: nat, upper: bool := false): char
    requires d < 16
  {
    if upper then "0123456789ABCDEF"[d] else "0123456789abcdef"[d]
  }

  lemma HexDigitReads(d: nat, upper: bool := false)
    requires d < 16
    ensures Digit(HexDigit(d, upper)) == d
  {
  }

  /** `%llx`. */
  function Hex(v: nat): (s: string)
    ensures s != []
  {
    if v < 16 then [HexDigit(v)] else Hex(v / 16) + [HexDigit(v % 16)]
  }

  /** The last `n` hexadecimal digits: `%02x`, `%08x` of a value that has no more. */
  function HexPad(v: nat, n: nat, upper: bool := false): (s: string)
    ensures |s| == n
  {
    if n == 0 then [] else HexPad(v / 16, n - 1, upper) + [HexDigit(v % 16, upper)]
  }

  function Pow16(n: nat): nat {
    if n == 0 then 1 else 16 * Pow16(n - 1)
  }

  lemma {:induction false} PowGrows(m: nat, n: nat)
    requires m <= n
    ensures 1 <= Pow16(m) <= Pow16(n)
    decreases n
  {
    if m < n {
      PowGrows(m, n - 1);
    } else if m > 0 {
      PowGrows(m - 1, m - 1);
    }
  }

  lemma PowBounds()
    ensures Pow16(8) == 0x1_0000_0000 && Pow16(16) == TWO64
  {
    assert Pow16(4) == 0x1_0000;
    assert Pow16(8) == 0x1_0000 * Pow16(4);
    assert Pow16(12) == 0x1_0000 * Pow16(8);
    assert Pow16(16) == 0x1_0000 * Pow16(12);
  }

  /** A number has at most `n` digits exactly if it is below the power. */
  lemma {:induction false} HexLength(v: nat, n: nat)
    requires n >= 1
    ensures |Hex(v)| <= n <==> v < Pow16(n)
    decreases n
  {
    if n == 1 {
      assert Pow16(1) == 16;
    } else if v >= 16 {
      HexLength(v / 16, n - 1);
    } else {
      PowGrows(1, n);
      assert Pow16(1) == 16;
    }
  }

  lemma {:induction false} HexReads(v: nat)
    ensures AllDigits(Hex(v), 16) && Value(Hex(v), 16) == v
  {
    HexDigitReads(v % 16);
    if v < 16 {
      assert Hex(v)[..0] == [];
    } else {
      HexReads(v / 16);
      assert Hex(v)[..|Hex(v)| - 1] == Hex(v / 16);
    }
  }

  lemma {:induction false} HexPadReads(v: nat, n: nat)
    requires v < Pow16(n)
    ensures AllDigits(HexPad(v, n), 16) && Value(HexPad(v, n), 16) == v
  {
    if n > 0 {
      HexDigitReads(v % 16);
      HexPadReads(v / 16, n - 1);
      assert HexPad(v, n)[..n - 1] == HexPad(v / 16, n - 1);
    }
  }

  // ----- numerals in other bases

  lemma QuotientSmaller(n: nat, radix: nat)
    requires 2 <= radix <= n
    ensures 0 <= n / radix < n && 0 <= n % radix < radix && n == n / radix * radix + n % radix
  {
    DivMod(n, radix);
    DivBound(n, radix, n);
  }

  /** A number in any base up to 16, without leading zeros. */
  function Numeral(n: nat, radix: nat): (s: string)
    requires 2 <= radix <= 16
    ensures s != ""
  {
    if n < radix then [HexDigit(n)]
    else
      QuotientSmaller(n, radix);
      Numeral(n / radix, radix) + [HexDigit(n % radix)]
  }

  function Dec(n: nat): (s: string)
    ensures s != ""
  {
    Numeral(n, 10)
  }

  lemma LeadingDigit(d: nat)
    requires d < 16
    ensures HexDigit(d) == '0' <==> d == 0
  {
  }

  lemma {:induction false} NumeralReads(n: nat, radix: nat)
    requires 2 <= radix <= 16
    ensures AllDigits(Numeral(n, radix), radix) && Value(Numeral(n, radix), radix) == n
    ensures if n == 0 then Numeral(n, radix) == "0" else Numeral(n, radix)[0] != '0'
  {
    var s := Numeral(n, radix);
    if n < radix {
      HexDigitReads(n);
      LeadingDigit(n);
      assert s[..0] == "";
    } else {
      QuotientSmaller(n, radix);
      HexDigitReads(n % radix);
      NumeralReads(n / radix, radix);
      assert s[..|s| - 1] == Numeral(n / radix, radix);
      assert n / radix > 0 by {
        DivMod(n, radix);
      }
    }
  }

  /** A decimal number is read whole in base 0, unless what follows goes on with it. */
  lemma DecNumber(n: nat, tail: string)
    requires Digit(At(tail, 0)) >= 10 && Lower(At(tail, 0)) != 'x'
    ensures var cp := Dec(n) + tail;
            exists radix :: Radix(cp, 0) == radix && (radix == 8 || radix == 10) && Body(cp, 0) == Dec(n) + tail
                            && AllDigits(Dec(n), radix) && Value(Dec(n), radix) == n
  {
    var cp := Dec(n) + tail;
    NumeralReads(n, 10);
    assert cp[0] == Dec(n)[0] && cp[0..] == cp;
    if n == 0 {
      assert |cp| > 1 ==> cp[1] == tail[0];
      assert "0"[..0] == "" && Value("0", 8) == 0;
      assert Radix(cp, 0) == 8;
    } else {
      assert Radix(cp, 0) == 10;
    }
  }

  lemma {:induction false} LeadingZero(s: string, radix: nat)
    ensures Value("0" + s, radix) == Value(s, radix)
  {
    if s == "" {
      assert "0" + s == "0" && "0"[..0] == "";
    } else {
      LeadingZero(s[..|s| - 1], radix);
      assert ("0" + s)[..|s|] == "0" + s[..|s| - 1];
    }
  }

  /** The digits behind the prefix are read whole. */
  lemma NumberIs(cp: string, digits: string, tail: string, radix: nat, v: nat)
    requires Radix(cp, 0) == radix && Body(cp, 0) == digits + tail
    requires AllDigits(digits, radix) && Value(digits, radix) == v < TWO64 && Digit(At(tail, 0)) >= radix
    ensures Number(cp, 0) == v && Rest(cp, 0) == tail
  {
    DigitsAre(digits, radix, tail);
    assert (digits + tail)[|digits|..] == tail;
  }

  lemma OctalShape(digits: string, tail: string, cp: string)
    requires digits != "" && AllDigits(digits, 8) && cp == "0" + digits + tail
    ensures Radix(cp, 0) == 8 && Body(cp, 0) == cp && AllDigits("0" + digits, 8)
  {
    assert cp[1] == digits[0] && cp[0..] == cp;
  }

  /** A leading zero makes the number octal. */
  lemma OctalNumber(n: nat, digits: string, tail: string)
    requires n < TWO64 && Digit(At(tail, 0)) >= 8 && digits == Numeral(n, 8)
    ensures Number("0" + digits + tail, 0) == n && Rest("0" + digits + tail, 0) == tail
  {
    NumeralReads(n, 8);
    LeadingZero(digits, 8);
    OctalShape(digits, tail, "0" + digits + tail);
    NumberIs("0" + digits + tail, "0" + digits, tail, 8, n);
  }

  /** The prefix may be written in either case. */
  lemma UpperPrefix(digits: string, tail: string)
    requires digits != "" && Digit(digits[0]) < 16
    ensures var cp := "0X" + digits + tail; Radix(cp, 0) == 16 && Body(cp, 0) == digits + tail
  {
    var cp := "0X" + digits + tail;
    assert cp[0] == '0' && cp[1] == 'X' && cp[2] == digits[0];
    assert cp[2..] == digits + tail;
  }
}
