/**
 When `fdt_parse_prop` reads past its last argument: texts that open a list of cells or bytes and that numbers
 use up before it is closed.
 */
module FdtExact {
  import opened CText
  import opened FdtText

  // ----- cells

  /** Cells follow one another to the end: each begins with '?' or a decimal digit, and blanks may follow it. */
  predicate CellsOnly(s: string)
    decreases |s|
  {
    s == "" || ((s[0] == '?' || Digit(s[0]) < 10) && (CellAdvances(s); CellsOnly(SkipBlanks(AfterCell(s)))))
  }

  /** The conversion moves on exactly where a cell begins. */
  lemma CellAdvances(s: string)
    requires s != ""
    ensures |AfterCell(s)| < |s| <==> s[0] == '?' || Digit(s[0]) < 10
  {
  }

  lemma CellsGoOn(cur: string, next: string, rest: seq<string>)
    requires cur != "" && (cur[0] == '?' || Digit(cur[0]) < 10) && next == SkipBlanks(AfterCell(cur))
    ensures CellsOnly(cur) <==> CellsOnly(next)
    ensures ParseCells(cur, rest).verdict == ParseCells(next, rest).verdict
  {
    CellAdvances(cur);
  }

  lemma CellsStop(cur: string, rest: seq<string>)
    requires cur != "" && cur[0] != '?' && Digit(cur[0]) >= 10
    ensures !CellsOnly(cur) && ParseCells(cur, rest).verdict != PastEnd
  {
    CellAdvances(cur);
  }

  lemma {:induction false} CellsPastEndIff(cur: string, rest: seq<string>)
    ensures ParseCells(cur, rest).verdict == PastEnd <==>
            CellsOnly(cur) && forall i :: 0 <= i < |rest| ==> CellsOnly(rest[i])
    decreases |rest|, |cur|
  {
    if cur == "" {
      if rest != [] {
        CellsPastEndIff(rest[0], rest[1..]);
        assert rest == [rest[0]] + rest[1..];
      }
    } else {
      CellAdvances(cur);
      if |AfterCell(cur)| < |cur| {
        CellsGoOn(cur, SkipBlanks(AfterCell(cur)), rest);
        CellsPastEndIff(SkipBlanks(AfterCell(cur)), rest);
      } else {
        CellsStop(cur, rest);
      }
    }
  }

  // ----- bytes

  /** Hexadecimal digits, with or without a prefix. */
  predicate HexWord(w: string) {
    AllDigits(w[Prefix(w, 16)..], 16)
  }

  /** The same of all words between blanks. */
  predicate HexWords(s: string)
    decreases |s|
  {
    HexWord(Until(s, ' ')) && (After(s, ' ').Some? ==> HexWords(After(s, ' ').value))
  }

  lemma {:induction false} BlanksAside(s: string)
    ensures HexWords(SkipBlanks(s)) <==> HexWords(s)
  {
    if s != "" && s[0] == ' ' {
      BlanksAside(s[1..]);
      assert Until(s, ' ') == "" && After(s, ' ') == Some(s[1..]);
    }
  }

  lemma NoHexWord(s: string)
    requires s != "" && s[0] != ' ' && Digit(s[0]) >= 16
    ensures !HexWords(s)
  {
    var w := Until(s, ' ');
    assert w[0] == s[0] && Prefix(w, 16) == 0;
    assert w[0..] == w;
  }

  lemma DigitsCons(c: char, w: string)
    requires Digit(c) < 16
    ensures AllDigits([c] + w, 16) <==> AllDigits(w, 16)
  {
    assert forall k :: 0 <= k < |w| ==> ([c] + w)[k + 1] == w[k];
  }

  /** The digits that are read end where the first word stops being hexadecimal. */
  lemma {:induction false} DigitsStop(s: string)
    ensures var d := Digits(s, 16);
            && (AllDigits(Until(s, ' '), 16) ==> d == Until(s, ' '))
            && (!AllDigits(Until(s, ' '), 16) ==> |d| < |s| && s[|d|] != ' ' && Digit(s[|d|]) >= 16)
  {
    var w := Until(s, ' ');
    if s != "" && Digit(s[0]) < 16 {
      DigitsStop(s[1..]);
      DigitsCons(s[0], Until(s[1..], ' '));
    } else if s != "" && s[0] != ' ' {
      assert w[0] == s[0];
    }
  }

  lemma {:induction false} UntilPrefix(s: string, c: char)
    ensures Until(s, c) <= s && c !in Until(s, c)
    ensures s[|Until(s, c)|..] == "" || s[|Until(s, c)|] == c
  {
    if s != "" && s[0] != c {
      UntilPrefix(s[1..], c);
      assert s == [s[0]] + s[1..];
    }
  }

  lemma {:induction false} UntilDrop(s: string, c: char, k: nat)
    requires k <= |Until(s, c)| && k <= |s|
    ensures Until(s[k..], c) == Until(s, c)[k..] && After(s[k..], c) == After(s, c)
  {
    if k == 0 {
      assert s[0..] == s;
    } else {
      UntilDrop(s[1..], c, k - 1);
      assert s[1..][k - 1..] == s[k..];
    }
  }

  lemma PrefixOfWord(s: string)
    ensures Prefix(s, 16) == Prefix(Until(s, ' '), 16) <= |Until(s, ' ')|
  {
    if |s| >= 2 && s[0] != ' ' {
      assert Until(s, ' ')[0] == s[0];
      assert Until(s[1..], ' ') == if s[1] == ' ' then "" else [s[1]] + Until(s[1..][1..], ' ');
    }
  }

  /** Reading a number off the text does not change whether its words are hexadecimal. */
  lemma NumberWord(s: string)
    requires s != "" && Digit(s[0]) < 16
    ensures HexWords(Rest(s, 16)) <==> HexWords(s)
  {
    var k := Prefix(s, 16);
    var b, w := s[k..], Until(s, ' ');
    PrefixOfWord(s);
    UntilPrefix(s, ' ');
    UntilDrop(s, ' ', k);
    DigitsStop(b);
    if HexWord(w) {
      assert Digits(b, 16) == w[k..];
      UntilDrop(s, ' ', |w|);
      assert Rest(s, 16) == s[|w|..];
      assert Until(Rest(s, 16), ' ') == "";
    } else {
      NoHexWord(Rest(s, 16));
    }
  }

  lemma {:induction false} BytesPastEndIff(cur: string, rest: seq<string>)
    ensures ParseBytes(cur, rest).verdict == PastEnd <==>
            HexWords(cur) && forall i :: 0 <= i < |rest| ==> HexWords(rest[i])
    decreases |rest|, |cur|
  {
    var s := SkipBlanks(cur);
    BlanksAside(cur);
    if s == "" {
      if rest != [] {
        BytesPastEndIff(rest[0], rest[1..]);
        assert rest == [rest[0]] + rest[1..];
      }
    } else if Digit(s[0]) >= 16 {
      NoHexWord(s);
    } else {
      Advances(s);
      NumberWord(s);
      BytesPastEndIff(Rest(s, 16), rest);
    }
  }

  // ----- the whole command

  predicate Unclosed(args: seq<string>)
    requires args != []
  {
    match At(args[0], 0)
    case '<' => CellsOnly(args[0][1..]) && forall i :: 1 <= i < |args| ==> CellsOnly(args[i])
    case '[' => HexWords(args[0][1..]) && forall i :: 1 <= i < |args| ==> HexWords(args[i])
    case _ => false
  }

  lemma AllShift(args: seq<string>, rest: seq<string>, p: string -> bool)
    requires args != [] && rest == args[1..]
    ensures (forall i :: 0 <= i < |rest| ==> p(rest[i])) <==> forall i :: 1 <= i < |args| ==> p(args[i])
  {
    if forall i :: 0 <= i < |rest| ==> p(rest[i]) {
      assert forall i :: 1 <= i < |args| ==> args[i] == rest[i - 1];
    }
  }

  /** The parser reads past its arguments exactly if nothing in any of them stops it. */
  lemma PastEndIff(args: seq<string>)
    requires args != []
    ensures ParseProp(args).verdict == PastEnd <==> Unclosed(args)
  {
    if At(args[0], 0) == '<' {
      CellsPastEndIff(args[0][1..], args[1..]);
      AllShift(args, args[1..], CellsOnly);
    } else if At(args[0], 0) == '[' {
      BytesPastEndIff(args[0][1..], args[1..]);
      AllShift(args, args[1..], HexWords);
    }
  }

  /** For example for the one argument `<1`. */
  lemma OpenCellPastEnd()
    ensures ParseProp(["<1"]).verdict == PastEnd
  {
    var s := "1";
    assert "<1"[1..] == s;
    assert Digits(s, 10) == s && Rest(s, 0) == "";
    assert CellsOnly(s);
    PastEndIff(["<1"]);
  }

  lemma {:induction false} DigitsFree(s: string, radix: nat, c: char)
    requires Digit(c) >= radix
    ensures c !in Digits(s, radix)
  {
    if s != "" && Digit(s[0]) < radix {
      DigitsFree(s[1..], radix, c);
    }
  }

  lemma {:induction false} BlanksFree(s: string, c: char)
    requires c != ' ' && c in s
    ensures c in SkipBlanks(s)
  {
    if s != "" && s[0] == ' ' {
      BlanksFree(s[1..], c);
      assert s == [s[0]] + s[1..];
    }
  }

  lemma RestKeeps(b: string, radix: nat, c: char)
    requires Digit(c) >= radix && c in b
    ensures c in b[|Digits(b, radix)|..]
  {
    DigitsFree(b, radix, c);
    assert b == Digits(b, radix) + b[|Digits(b, radix)|..];
  }

  lemma TailKeeps(s: string, c: char, k: nat)
    requires c in s && k <= |s| && c !in s[..k]
    ensures c in s[k..]
  {
    assert s == s[..k] + s[k..];
  }

  lemma CloserStays(s: string)
    requires s != "" && '>' in s
    ensures s[0] != '>' ==> '>' in AfterCell(s)
  {
    if s[0] == '?' {
      assert s == [s[0]] + s[1..];
    } else {
      TailKeeps(s, '>', Prefix(s, Radix(s, 0)));
      RestKeeps(Body(s, 0), Radix(s, 0), '>');
    }
  }

  lemma {:induction false} CellsNeverClose(s: string)
    requires CellsOnly(s)
    ensures '>' !in s
    decreases |s|
  {
    if s != "" && '>' in s {
      CloserStays(s);
      CellAdvances(s);
      BlanksFree(AfterCell(s), '>');
      CellsNeverClose(SkipBlanks(AfterCell(s)));
    }
  }

  lemma WordNeverCloses(w: string)
    requires HexWord(w)
    ensures ']' !in w
  {
    assert w == w[..Prefix(w, 16)] + w[Prefix(w, 16)..];
  }

  lemma {:induction false} WordsNeverClose(s: string)
    requires HexWords(s)
    ensures ']' !in s
    decreases |s|
  {
    WordNeverCloses(Until(s, ' '));
    CutParts(s, ' ');
    if After(s, ' ').Some? {
      WordsNeverClose(After(s, ' ').value);
    }
  }

  /** A closing character in any of the arguments keeps the parser within them. */
  lemma ClosedStaysWithin(args: seq<string>, i: nat)
    requires args != [] && i < |args|
    requires At(args[0], 0) == '<' ==> '>' in args[i]
    requires At(args[0], 0) == '[' ==> ']' in args[i]
    ensures ParseProp(args).verdict != PastEnd
  {
    PastEndIff(args);
    if Unclosed(args) {
      var s := if i == 0 then args[0][1..] else args[i];
      if At(args[0], 0) == '<' {
        TailKeeps(args[i], '>', if i == 0 then 1 else 0);
        CellsNeverClose(s);
      } else {
        TailKeeps(args[i], ']', if i == 0 then 1 else 0);
        WordsNeverClose(s);
      }
    }
  }
}
