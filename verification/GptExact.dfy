/**
 When `set_gpt_info` reads the text of a partition layout as that layout: exact conditions on the length of
 the text and on the names, whoever wrote the text.
 */
module GptExact {
  import opened Arithmetic
  import opened CText
  import opened GptFields
  import opened GptText
  import opened GptRoundTrip

  // ----- counting entries

  function Semis(s: string): nat {
    if s == "" then 0 else (if s[0] == ';' then 1 else 0) + Semis(s[1..])
  }

  lemma {:induction false} SemisAppend(a: string, b: string)
    ensures Semis(a + b) == Semis(a) + Semis(b)
  {
    if a == "" {
      assert a + b == b;
    } else {
      SemisAppend(a[1..], b);
      assert (a + b)[1..] == a[1..] + b;
    }
  }

  lemma {:induction false} SemisZeroIff(s: string)
    ensures Semis(s) == 0 <==> ';' !in s
  {
    if s != "" {
      SemisZeroIff(s[1..]);
      assert s == [s[0]] + s[1..];
    }
  }

  lemma {:induction false} PiecesAre(s: string)
    ensures Pieces(Some(s)) == Semis(s) + 1
  {
    if s != "" {
      PiecesAre(s[1..]);
    }
  }

  /** As many partitions as pieces. */
  lemma {:induction false} PartsCount(s: string, blksz: nat, env: Env)
    requires blksz > 0
    ensures PartsOf(s, blksz, env).Ok? ==> |PartsOf(s, blksz, env).value| == Pieces(Some(s))
    decreases |s|
  {
    if After(s, ';').Some? {
      PartsCount(After(s, ';').value, blksz, env);
    }
  }

  lemma {:induction false} EndedSemis(es: seq<string>)
    ensures Semis(Ended(es)) >= |es|
    ensures Semis(Ended(es)) == |es| <==> forall i :: 0 <= i < |es| ==> ';' !in es[i]
  {
    if es != [] {
      var n := |es| - 1;
      EndedSemis(es[..n]);
      SemisAppend(Ended(es[..n]) + es[n], ";");
      SemisAppend(Ended(es[..n]), es[n]);
      SemisZeroIff(es[n]);
      assert forall i :: 0 <= i < n ==> es[..n][i] == es[i];
    }
  }

  lemma SplitSemis(s: string, k: nat)
    requires k <= |s|
    ensures Semis(s) == Semis(s[..k]) + Semis(s[k..])
  {
    SemisAppend(s[..k], s[k..]);
    assert s == s[..k] + s[k..];
  }

  lemma LastSemi(s: string, k: nat)
    requires k < |s| && s[|s| - 1] == ';'
    ensures Semis(s[k..]) >= 1
  {
    SemisZeroIff(s[k..]);
    assert s[k..][|s| - 1 - k] == ';';
  }

  lemma CutPieces(s: string, n: nat)
    requires 0 < n <= |s| && s[n - 1] == ';'
    ensures Pieces(Some(s[..n - 1])) == Semis(s[..n])
  {
    PiecesAre(s[..n - 1]);
    SplitSemis(s[..n], n - 1);
    assert s[..n][..n - 1] == s[..n - 1] && s[..n][n - 1..] == ";";
  }

  /** A text that ends with ';' keeps its entries exactly if the reader looks at all of it. */
  lemma TrimmedPieces(s: string)
    requires s != "" && s[|s| - 1] == ';'
    ensures Pieces(Some(Trimmed(s))) == Semis(s) <==> |s| <= MAX_STR_PART
  {
    var n := if |s| <= MAX_STR_PART then |s| else MAX_STR_PART;
    if s[n - 1] == ';' {
      CutPieces(s, n);
      SplitSemis(s, n);
      if n < |s| {
        LastSemi(s, n);
      } else {
        assert s[n..] == "";
      }
    } else {
      PiecesAre(s);
    }
  }

  /** Any other number of entries than partitions, and the layout does not come back. */
  lemma CountDiffers(text: string, guid: string, s: string, parts: seq<Part>, blksz: nat, env: Env)
    requires blksz > 0 && text == UUID_DISK + "=" + guid + ";" + s && Separate(guid) && Plain(env, guid) && s != ""
    requires Pieces(Some(Trimmed(s))) != |parts|
    ensures Parse(Some(text), blksz, env) != Ok(Layout(guid, parts, |parts|))
  {
    GuidReads(text, guid, s, blksz, env);
    PartsCount(Trimmed(s), blksz, env);
  }

  /** A layout is read exactly from texts that the reader looks at as a whole. */
  lemma LayoutComesBackIff(guid: string, ps: seq<DiskPart>, blksz: nat, env: Env)
    requires ps != [] && blksz > 0 && AllGood(ps, blksz, env)
    requires |guid| <= UUID_STR_LEN && Separate(guid) && Plain(env, guid)
    ensures ComesBack(guid, ps, blksz, env) <==> |Ended(EntryTexts(ps))| <= MAX_STR_PART
  {
    if |Ended(EntryTexts(ps))| <= MAX_STR_PART {
      LayoutComesBack(guid, ps, blksz, env);
    } else {
      TooLong(guid, ps, blksz, env);
    }
  }

  lemma EntriesFree(ps: seq<DiskPart>, es: seq<string>)
    requires es == EntryTexts(ps) && forall i :: 0 <= i < |ps| ==> ';' !in ps[i].name && ';' !in ps[i].uuid
    ensures forall i :: 0 <= i < |es| ==> ';' !in es[i]
  {
    forall i | 0 <= i < |es| ensures ';' !in es[i] {
      EntryIsOne(ps[i]);
    }
  }

  lemma TooLong(guid: string, ps: seq<DiskPart>, blksz: nat, env: Env)
    requires ps != [] && blksz > 0 && AllGood(ps, blksz, env)
    requires |guid| <= UUID_STR_LEN && Separate(guid) && Plain(env, guid)
    requires |Ended(EntryTexts(ps))| > MAX_STR_PART
    ensures !ComesBack(guid, ps, blksz, env)
  {
    var es := EntryTexts(ps);
    EntriesFree(ps, es);
    EndedShape(es);
    EndedSemis(es);
    TrimmedPieces(Ended(es));
    LayoutIs(guid, ps, LayoutText(guid, ps));
    CountDiffers(LayoutText(guid, ps), guid, Ended(es), AllBack(ps), blksz, env);
  }

  // ----- names

  /** All that is asked of an entry but that its name is short and holds no separator. */
  predicate GoodButName(p: DiskPart, blksz: nat, env: Env) {
    && Good(p.(name := ""), blksz, env)
    && |p.name| <= PART_NAME_LEN && Plain(env, p.name) && Plain(env, Until(p.name, ','))
  }

  /** What a name must be: no separators, and shorter than the array for it. */
  predicate GoodName(name: string) {
    Separate(name) && |name| < PART_NAME_LEN
  }

  lemma {:induction false} PartsAt(es: seq<string>, parts: seq<Part>, blksz: nat, env: Env, i: nat)
    requires blksz > 0 && i < |es| && (forall j :: 0 <= j < |es| ==> ';' !in es[j])
    requires Ended(es) != "" && PartsOf(Butlast(Ended(es)), blksz, env) == Ok(parts)
    ensures i < |parts| && PartOf(es[i], blksz, env) == Ok(parts[i])
    decreases |es|
  {
    EndedShape(es);
    if |es| == 1 {
      CutNone(es[0], ';');
    } else {
      var rest := Butlast(Ended(es[1..]));
      CutAt(es[0], ';', rest);
      if i > 0 {
        PartsAt(es[1..], parts[1..], blksz, env, i - 1);
      }
    }
  }

  /** The name that is read is what stands before the first comma, with a variable expanded. */
  lemma NameRead(p: DiskPart, tok: string, blksz: nat, env: Env)
    requires blksz > 0 && |p.name| <= PART_NAME_LEN && tok == Joined(Fields(p))
    ensures PartOf(tok, blksz, env).Ok? ==> PartOf(tok, blksz, env).value.name == Expand(env, Until(p.name, ','))
  {
    NameCut(p, tok);
  }

  lemma NameChanges(p: DiskPart, tok: string, blksz: nat, env: Env)
    requires blksz > 0 && GoodButName(p, blksz, env) && tok == Joined(Fields(p))
    requires ',' in p.name || |p.name| == PART_NAME_LEN
    ensures PartOf(tok, blksz, env) != Ok(Back(p))
  {
    NameRead(p, tok, blksz, env);
    NameCut(p, tok);
  }

  lemma NameInEntry(p: DiskPart)
    requires |p.name| <= PART_NAME_LEN
    ensures forall c :: c in p.name ==> c in Joined(Fields(p))
  {
    JoinedFour(Fields(p));
  }

  lemma SemicolonSplits(guid: string, ps: seq<DiskPart>, blksz: nat, env: Env, i: nat)
    requires blksz > 0 && |guid| <= UUID_STR_LEN && Separate(guid) && Plain(env, guid)
    requires i < |ps| && |ps[i].name| <= PART_NAME_LEN && ';' in ps[i].name
    requires |Ended(EntryTexts(ps))| <= MAX_STR_PART
    ensures !ComesBack(guid, ps, blksz, env)
  {
    var es := EntryTexts(ps);
    NameInEntry(ps[i]);
    assert ';' in es[i];
    EndedShape(es);
    EndedSemis(es);
    TrimmedPieces(Ended(es));
    LayoutIs(guid, ps, LayoutText(guid, ps));
    CountDiffers(LayoutText(guid, ps), guid, Ended(es), AllBack(ps), blksz, env);
  }

  lemma NameDiffers(guid: string, ps: seq<DiskPart>, blksz: nat, env: Env, i: nat)
    requires blksz > 0 && |guid| <= UUID_STR_LEN && Separate(guid) && Plain(env, guid)
    requires i < |ps| && GoodButName(ps[i], blksz, env) && (',' in ps[i].name || |ps[i].name| == PART_NAME_LEN)
    requires forall j :: 0 <= j < |ps| ==> ';' !in ps[j].name && ';' !in ps[j].uuid
    requires |Ended(EntryTexts(ps))| <= MAX_STR_PART
    ensures !ComesBack(guid, ps, blksz, env)
  {
    var es := EntryTexts(ps);
    EntriesFree(ps, es);
    EndedShape(es);
    LayoutIs(guid, ps, LayoutText(guid, ps));
    GuidReads(LayoutText(guid, ps), guid, Ended(es), blksz, env);
    NameChanges(ps[i], es[i], blksz, env);
    if PartsOf(Trimmed(Ended(es)), blksz, env) == Ok(AllBack(ps)) {
      PartsAt(es, AllBack(ps), blksz, env, i);
    }
  }

  /** The layout comes back exactly if no name holds a comma or a semicolon or fills its array. */
  lemma NamesComeBackIff(guid: string, ps: seq<DiskPart>, blksz: nat, env: Env)
    requires ps != [] && blksz > 0 && forall i :: 0 <= i < |ps| ==> GoodButName(ps[i], blksz, env)
    requires |guid| <= UUID_STR_LEN && Separate(guid) && Plain(env, guid)
    requires |Ended(EntryTexts(ps))| <= MAX_STR_PART
    ensures ComesBack(guid, ps, blksz, env) <==> forall i :: 0 <= i < |ps| ==> GoodName(ps[i].name)
  {
    if i :| 0 <= i < |ps| && ';' in ps[i].name {
      SemicolonSplits(guid, ps, blksz, env, i);
    } else if i :| 0 <= i < |ps| && !GoodName(ps[i].name) {
      NameDiffers(guid, ps, blksz, env, i);
    } else {
      LayoutComesBack(guid, ps, blksz, env);
    }
  }

  lemma HeadParsed(text: string, guid: string, s: string, x: string, blksz: nat, env: Env)
    requires text == UUID_DISK + "=" + guid + ";" + s && Separate(guid) && Plain(env, guid) && blksz > 0 && Separate(x)
    requires s != "" && s[|s| - 1] == ';' && "name=" + x + ";" <= s && |x| + 6 < |s| && |x| < PART_NAME_LEN
    ensures Parse(Some(text), blksz, env) == Err(-4)
  {
    NameOnly(x, blksz, env);
    HeadRefused(s, "name=" + x, blksz, env);
    GuidReads(text, guid, s, blksz, env);
  }

  /** An entry whose name holds a semicolon ends there, without the fields that must follow. */
  lemma SemicolonRefused(guid: string, p: DiskPart, x: string, y: string, blksz: nat, env: Env)
    requires blksz > 0 && |guid| <= UUID_STR_LEN && Separate(guid) && Plain(env, guid)
    requires |p.name| < PART_NAME_LEN && p.name == x + ";" + y && Separate(x)
    ensures Parse(Some(LayoutText(guid, [p])), blksz, env) == Err(-4)
  {
    var es := EntryTexts([p]);
    assert es == [Joined(Fields(p))];
    EndedShape(es);
    EntryHead(p, x, y);
    LayoutIs(guid, [p], LayoutText(guid, [p]));
    HeadParsed(LayoutText(guid, [p]), guid, Ended(es), x, blksz, env);
  }

  lemma EntryHead(p: DiskPart, x: string, y: string)
    requires |p.name| < PART_NAME_LEN && p.name == x + ";" + y
    ensures "name=" + x + ";" <= Joined(Fields(p))
  {
    JoinedFour(Fields(p));
  }

  lemma NameOnly(x: string, blksz: nat, env: Env)
    requires blksz > 0 && Separate(x)
    ensures PartOf("name=" + x, blksz, env) == Err(-4)
  {
    var tok := "name=" + x;
    CutNone(tok, ',');
    CutAt("name", '=', x);
    assert "name" + "=" + x == tok;
    assert "name"[0] != "uuid"[0];
  }

  lemma HeadRefused(s: string, tok: string, blksz: nat, env: Env)
    requires blksz > 0 && s != "" && s[|s| - 1] == ';' && tok + ";" <= s && ';' !in tok
    requires |tok| + 1 < |s| && |tok| + 1 < MAX_STR_PART
    requires PartOf(tok, blksz, env) == Err(-4)
    ensures PartsOf(Trimmed(s), blksz, env) == Err(-4)
  {
    var t := Trimmed(s);
    assert t == tok + ";" + t[|tok| + 1..];
    CutAt(tok, ';', t[|tok| + 1..]);
  }

  // ----- how many partitions fit

  /** What is not fixed about the length of an entry: the name, the uuid and the digits of both numbers. */
  function Weight(p: DiskPart): nat {
    |p.name| + |p.uuid| + |Hex(Bytes(p.start, p.blksz))| + |Hex(Bytes(p.size, p.blksz))|
  }

  lemma EntryLength(p: DiskPart)
    requires |p.name| <= PART_NAME_LEN && |p.uuid| <= UUID_STR_LEN
    ensures |Joined(Fields(p))| == 28 + Weight(p)
  {
    JoinedFour(Fields(p));
  }

  lemma {:induction false} EndedBound(es: seq<string>)
    requires forall i :: 0 <= i < |es| ==> |es[i]| < 128
    ensures |Ended(es)| <= 128 * |es|
  {
    if es != [] {
      EndedBound(es[..|es| - 1]);
    }
  }

  /** Texts of up to 59 partitions are always read whole. */
  lemma FiftyNineComeBack(guid: string, ps: seq<DiskPart>, blksz: nat, env: Env)
    requires 1 <= |ps| <= 59 && blksz > 0 && AllGood(ps, blksz, env)
    requires |guid| <= UUID_STR_LEN && Separate(guid) && Plain(env, guid)
    ensures ComesBack(guid, ps, blksz, env)
  {
    var es := EntryTexts(ps);
    forall i | 0 <= i < |es| ensures |es[i]| < 128 {
      EntryLength(ps[i]);
      HexLength(Bytes(ps[i].start, ps[i].blksz), 16);
      HexLength(Bytes(ps[i].size, ps[i].blksz), 16);
      PowBounds();
    }
    EndedBound(es);
    LayoutComesBack(guid, ps, blksz, env);
  }

  /** Names, uuids and numbers as long as they can be. */
  predicate Longest(p: DiskPart) {
    && |p.name| == PART_NAME_LEN - 1 && |p.uuid| == UUID_STR_LEN
    && Bytes(p.start, p.blksz) >= 0x1000_0000_0000_0000 && Bytes(p.size, p.blksz) >= 0x1000_0000_0000_0000
  }

  lemma {:induction false} EndedExact(es: seq<string>)
    requires forall i :: 0 <= i < |es| ==> |es[i]| == 127
    ensures |Ended(es)| == 128 * |es|
  {
    if es != [] {
      EndedExact(es[..|es| - 1]);
    }
  }

  /** Texts of sixty of the longest are not. */
  lemma SixtyDoNot(guid: string, ps: seq<DiskPart>, blksz: nat, env: Env)
    requires |ps| >= 60 && blksz > 0 && AllGood(ps, blksz, env) && forall i :: 0 <= i < |ps| ==> Longest(ps[i])
    requires |guid| <= UUID_STR_LEN && Separate(guid) && Plain(env, guid)
    ensures !ComesBack(guid, ps, blksz, env)
  {
    var es := EntryTexts(ps);
    forall i | 0 <= i < |es| ensures |es[i]| == 127 {
      LongestLength(ps[i]);
    }
    EndedExact(es);
    TooLong(guid, ps, blksz, env);
  }

  lemma SixteenDigits(v: nat)
    requires 0x1000_0000_0000_0000 <= v < TWO64
    ensures |Hex(v)| == 16
  {
    HexLength(v, 15);
    HexLength(v, 16);
    PowBounds();
    assert Pow16(16) == 16 * Pow16(15);
  }

  lemma LongestLength(p: DiskPart)
    requires Longest(p)
    ensures |Joined(Fields(p))| == 127
  {
    EntryLength(p);
    SixteenDigits(Bytes(p.start, p.blksz));
    SixteenDigits(Bytes(p.size, p.blksz));
  }

  // ----- errors and counts

  /** No text, and a text without the guid. */
  lemma NoGuidRefused(fs: seq<Field>, blksz: nat, env: Env)
    requires blksz > 0 && fs != [] && (forall i :: 0 <= i < |fs| ==> Clean(fs[i])) && Lookup(fs, UUID_DISK) == None
    ensures Parse(None, blksz, env) == Err(-1) && Parse(Some(Joined(fs)), blksz, env) == Err(-2)
  {
    ValueOfJoined(fs, UUID_DISK);
  }

  lemma ParseNone(text: string, val: string, blksz: nat, env: Env)
    requires blksz > 0 && ValueOf(text, UUID_DISK) == Some(val) && After(text, ';') == None
    ensures Parse(Some(text), blksz, env) == Err(-22)
  {
  }

  /** A guid with no semicolon behind it. */
  lemma NothingBehindRefused(guid: string, text: string, blksz: nat, env: Env)
    requires blksz > 0 && Separate(guid) && text == UUID_DISK + "=" + guid
    ensures Parse(Some(text), blksz, env) == Err(-22)
  {
    CutNone(text, ',');
    CutAt(UUID_DISK, '=', guid);
    CutNone(text, ';');
    ParseNone(text, guid, blksz, env);
  }

  /** An entry without one of the mandatory fields, or with one that is too long, is refused with -4. */
  lemma EntryRefused(fs: seq<Field>, blksz: nat, env: Env)
    requires blksz > 0 && fs != [] && (forall i :: 0 <= i < |fs| ==> Clean(fs[i]))
    requires || Lookup(fs, "uuid") == None || |Expand(env, Lookup(fs, "uuid").value)| > 36
             || Lookup(fs, "name") == None || |Expand(env, Lookup(fs, "name").value)| > 31
             || Lookup(fs, "size") == None
    ensures PartOf(Joined(fs), blksz, env) == Err(-4)
  {
    ValueOfJoined(fs, "uuid");
    ValueOfJoined(fs, "name");
    ValueOfJoined(fs, "size");
  }

  /** There is one partition for each entry, and the count is kept in one byte. */
  lemma CountWraps(text: string, blksz: nat, env: Env)
    requires blksz > 0 && Parse(Some(text), blksz, env).Ok?
    ensures var l := Parse(Some(text), blksz, env).value;
            l.count == |l.parts| % 256 && |l.parts| == Semis(Trimmed(After(text, ';').value)) + 1
  {
    var s := After(text, ';').value;
    PartsCount(Trimmed(s), blksz, env);
    PiecesAre(Trimmed(s));
  }
}
