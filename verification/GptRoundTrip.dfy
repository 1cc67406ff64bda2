/** Reading back the partition layout that the `gpt` command wrote. */
module GptRoundTrip {
  import opened Arithmetic
  import opened CText
  import opened GptFields
  import opened GptText

  predicate Separate(s: string) {
    ',' !in s && ';' !in s
  }

  /** Not a reference to a variable that is set. */
  predicate Plain(env: Env, v: string) {
    IsReference(v) ==> v[2..|v| - 1] !in env
  }

  /** What the partition table promises of an entry, and what the text can carry. */
  predicate Good(p: DiskPart, blksz: nat, env: Env) {
    && p.blksz == blksz && p.start * blksz < TWO64 && p.size * blksz < TWO64
    && |p.name| < PART_NAME_LEN && Separate(p.name) && Plain(env, p.name)
    && |p.uuid| <= UUID_STR_LEN && Separate(p.uuid) && Plain(env, p.uuid)
  }

  predicate AllGood(ps: seq<DiskPart>, blksz: nat, env: Env) {
    forall i :: 0 <= i < |ps| ==> Good(ps[i], blksz, env)
  }

  /** What comes back: everything but the bootable flag, which the text does not carry. */
  function Back(p: DiskPart): Part {
    Part(p.start, p.size, p.name, p.uuid, false)
  }

  function AllBack(ps: seq<DiskPart>): seq<Part> {
    seq(|ps|, i requires 0 <= i < |ps| => Back(ps[i]))
  }

  // ----- one entry

  lemma HexText(v: nat)
    ensures forall c :: c in Hex(v) ==> Digit(c) < 16
  {
    HexReads(v);
  }

  lemma NumberText(v: nat)
    requires v < TWO64
    ensures Number("0x" + Hex(v), 0) == v && Rest("0x" + Hex(v), 0) == ""
  {
    HexReads(v);
    PrefixedNumber("0x" + Hex(v), Hex(v), "", v);
  }

  lemma BlocksBack(env: Env, blocks: nat, blksz: nat)
    requires blksz > 0 && blocks * blksz < TWO64
    ensures var v := "0x" + Hex(Bytes(blocks, blksz));
            Expand(env, v) == v && SizeOf(v, blksz) == blocks && StartOf(Some(v), blksz, env) == blocks
  {
    var n := Bytes(blocks, blksz);
    assert n == blocks * blksz by {
      MulNonNegative(blocks, blksz);
    }
    NumberText(n);
    DivModUnique(n, blksz, blocks, 0);
  }

  lemma FieldsClean(p: DiskPart)
    requires Separate(p.name) && Separate(p.uuid)
    ensures forall i :: 0 <= i < 4 ==> Clean(Fields(p)[i])
  {
    HexText(Bytes(p.start, p.blksz));
    HexText(Bytes(p.size, p.blksz));
  }

  lemma FoundFields(p: DiskPart)
    ensures var fs := Fields(p);
            && Lookup(fs, "name") == Some(fs[0].value) && Lookup(fs, "start") == Some(fs[1].value)
            && Lookup(fs, "size") == Some(fs[2].value) && Lookup(fs, "uuid") == Some(fs[3].value)
  {
    var fs := Fields(p);
    assert "name"[0] == 'n' && "start"[1] == 't' && "size"[1] == 'i' && "uuid"[0] == 'u';
    assert Lookup(fs[3..], "uuid") == Some(fs[3].value);
    assert fs[2..][1..] == fs[3..] && fs[1..][1..] == fs[2..];
    assert Lookup(fs[2..], "uuid") == Lookup(fs[3..], "uuid");
    assert Lookup(fs[1..], "uuid") == Lookup(fs[2..], "uuid");
    assert Lookup(fs[1..], "size") == Lookup(fs[2..], "size");
  }

  lemma EntryValues(p: DiskPart)
    requires Separate(p.name) && Separate(p.uuid)
    ensures var fs, tok := Fields(p), Joined(Fields(p));
            && ValueOf(tok, "name") == Some(fs[0].value) && ValueOf(tok, "start") == Some(fs[1].value)
            && ValueOf(tok, "size") == Some(fs[2].value) && ValueOf(tok, "uuid") == Some(fs[3].value)
            && !HasKey(tok, "bootable")
  {
    var fs := Fields(p);
    FieldsClean(p);
    FoundFields(p);
    ValueOfJoined(fs, "name");
    ValueOfJoined(fs, "start");
    ValueOfJoined(fs, "size");
    ValueOfJoined(fs, "uuid");
    NoBareKey(fs, "bootable");
  }

  lemma PartFrom(tok: string, blksz: nat, env: Env, p: Part, size: string, start: string)
    requires blksz > 0 && |p.uuid| <= UUID_STR_LEN && |p.name| < PART_NAME_LEN
    requires ValueOf(tok, "uuid") == Some(p.uuid) && Expand(env, p.uuid) == p.uuid
    requires ValueOf(tok, "name") == Some(p.name) && Expand(env, p.name) == p.name
    requires ValueOf(tok, "size") == Some(size) && Expand(env, size) == size && SizeOf(size, blksz) == p.size
    requires ValueOf(tok, "start") == Some(start) && StartOf(Some(start), blksz, env) == p.start
    requires HasKey(tok, "bootable") == p.bootable
    ensures PartOf(tok, blksz, env) == Ok(p)
  {
  }

  lemma EntryNumbers(p: DiskPart, env: Env)
    requires p.blksz > 0 && p.start * p.blksz < TWO64 && p.size * p.blksz < TWO64
    ensures var fs := Fields(p);
            && Expand(env, fs[2].value) == fs[2].value && SizeOf(fs[2].value, p.blksz) == p.size
            && StartOf(Some(fs[1].value), p.blksz, env) == p.start
  {
    BlocksBack(env, p.start, p.blksz);
    BlocksBack(env, p.size, p.blksz);
  }

  lemma EntryNames(p: DiskPart, blksz: nat, env: Env)
    requires Good(p, blksz, env)
    ensures Fields(p)[0].value == p.name && Expand(env, p.name) == p.name
    ensures Fields(p)[3].value == p.uuid && Expand(env, p.uuid) == p.uuid
  {
  }

  lemma EntryReads(p: DiskPart, blksz: nat, env: Env, tok: string)
    requires blksz > 0 && Good(p, blksz, env) && tok == Joined(Fields(p))
    ensures PartOf(tok, blksz, env) == Ok(Back(p))
  {
    var size, start := Fields(p)[2].value, Fields(p)[1].value;
    EntryValues(p);
    EntryNames(p, blksz, env);
    EntryNumbers(p, env);
    PartFrom(tok, blksz, env, Back(p), size, start);
  }

  lemma {:induction false} JoinedAvoids(fs: seq<Field>, c: char)
    requires fs != [] && c != ',' && c != '='
    requires forall i :: 0 <= i < |fs| ==> c !in fs[i].key && c !in fs[i].value
    ensures c !in Joined(fs) && |Joined(fs)| >= 2 * |fs| - 1
  {
    assert c !in Text(fs[0]);
    if |fs| > 1 {
      JoinedAvoids(fs[1..], c);
    }
  }

  lemma EntryIsOne(p: DiskPart)
    requires ';' !in p.name && ';' !in p.uuid
    ensures ';' !in Joined(Fields(p))
  {
    HexText(Bytes(p.start, p.blksz));
    HexText(Bytes(p.size, p.blksz));
    JoinedAvoids(Fields(p), ';');
  }

  lemma EntryLong(fs: seq<Field>)
    requires |fs| == 4 && |fs[0].key| == 4 && |fs[1].key| == 5 && |fs[2].key| == 4 && |fs[3].key| == 4
    requires |fs[1].value| >= 3 && |fs[2].value| >= 3
    ensures |Joined(fs)| >= 30
  {
    JoinedFour(fs);
  }

  // ----- all entries

  lemma {:induction false} EndedFront(es: seq<string>)
    requires es != []
    ensures Ended(es) == es[0] + ";" + Ended(es[1..])
  {
    var n := |es| - 1;
    if n == 0 {
      assert Ended(es[..0]) == "";
    } else {
      EndedFront(es[..n]);
      assert es[1..][..n - 1] == es[..n][1..];
      var e := Ended(es[..n][1..]);
      assert Ended(es[1..]) == e + es[n] + ";";
      assert (es[0] + ";" + e) + es[n] + ";" == es[0] + ";" + (e + es[n] + ";");
    }
  }

  ghost predicate EntriesAre(es: seq<string>, parts: seq<Part>, blksz: nat, env: Env)
    requires blksz > 0
  {
    && |es| == |parts|
    && forall i {:trigger es[i]} :: 0 <= i < |es| ==> ';' !in es[i] && PartOf(es[i], blksz, env) == Ok(parts[i])
  }

  lemma LastPart(s: string, tok: string, parts: seq<Part>, blksz: nat, env: Env)
    requires s == tok && |parts| == 1
    requires blksz > 0 && ';' !in tok && PartOf(tok, blksz, env) == Ok(parts[0])
    ensures PartsOf(s, blksz, env) == Ok(parts)
  {
    CutNone(tok, ';');
    assert parts == [parts[0]];
  }

  lemma NextPart(s: string, tok: string, rest: string, parts: seq<Part>, blksz: nat, env: Env)
    requires s == tok + ";" + rest && parts != []
    requires blksz > 0 && ';' !in tok && PartOf(tok, blksz, env) == Ok(parts[0])
    requires PartsOf(rest, blksz, env) == Ok(parts[1..])
    ensures PartsOf(s, blksz, env) == Ok(parts)
  {
    CutAt(tok, ';', rest);
    assert parts == [parts[0]] + parts[1..];
  }

  lemma ButlastCons(a: string, rest: string)
    requires rest != ""
    ensures Butlast(a + ";" + rest) == a + ";" + Butlast(rest)
  {
  }

  lemma EndedLast(es: seq<string>)
    requires es != []
    ensures Ended(es) != "" && Ended(es)[|Ended(es)| - 1] == ';'
  {
  }

  lemma EndedShape(es: seq<string>)
    requires es != []
    ensures Ended(es) != "" && Ended(es)[|Ended(es)| - 1] == ';'
    ensures |es| == 1 ==> Butlast(Ended(es)) == es[0]
    ensures |es| > 1 ==> Ended(es[1..]) != "" && Butlast(Ended(es)) == es[0] + ";" + Butlast(Ended(es[1..]))
  {
    EndedFront(es);
    EndedLast(es);
    if |es| == 1 {
      assert Ended(es[1..]) == "";
    } else {
      EndedLast(es[1..]);
      ButlastCons(es[0], Ended(es[1..]));
    }
  }

  function Butlast(s: string): string
    requires s != ""
  {
    s[..|s| - 1]
  }

  lemma {:induction false} EndedReads(es: seq<string>, parts: seq<Part>, blksz: nat, env: Env)
    requires es != [] && blksz > 0 && EntriesAre(es, parts, blksz, env)
    ensures Ended(es) != "" && Ended(es)[|Ended(es)| - 1] == ';'
    ensures PartsOf(Butlast(Ended(es)), blksz, env) == Ok(parts)
    decreases |es|
  {
    EndedShape(es);
    if |es| == 1 {
      LastPart(Butlast(Ended(es)), es[0], parts, blksz, env);
    } else {
      EndedReads(es[1..], parts[1..], blksz, env);
      NextPart(Butlast(Ended(es)), es[0], Butlast(Ended(es[1..])), parts, blksz, env);
    }
  }

  lemma {:induction false} EndedLong(es: seq<string>)
    requires forall i :: 0 <= i < |es| ==> |es[i]| >= 30
    ensures |Ended(es)| >= 31 * |es|
  {
    if es != [] {
      EndedLong(es[..|es| - 1]);
    }
  }

  lemma EntriesRead(ps: seq<DiskPart>, blksz: nat, env: Env)
    requires blksz > 0 && AllGood(ps, blksz, env)
    ensures EntriesAre(EntryTexts(ps), AllBack(ps), blksz, env)
    ensures |Ended(EntryTexts(ps))| >= 31 * |ps|
  {
    var es := EntryTexts(ps);
    forall i | 0 <= i < |es|
      ensures |es[i]| >= 30 && ';' !in es[i] && PartOf(es[i], blksz, env) == Ok(AllBack(ps)[i])
    {
      EntryIsOne(ps[i]);
      EntryReads(ps[i], blksz, env, es[i]);
      EntryLong(Fields(ps[i]));
    }
    EndedLong(es);
  }

  // ----- the disk guid

  const UUID_DISK := "uuid_disk"

  lemma GuidValue(guid: string, more: string, text: string)
    requires Separate(guid) && text == UUID_DISK + "=" + guid + ";" + more
    ensures ValueOf(text, UUID_DISK) == Some(guid + ";" + Until(more, ','))
  {
    var head, value := UUID_DISK + "=" + guid + ";", guid + ";" + Until(more, ',');
    CutAppend(head, ',', more);
    assert head + Until(more, ',') == UUID_DISK + "=" + value;
    CutAt(UUID_DISK, '=', value);
  }

  lemma GuidRest(guid: string, more: string, text: string)
    requires Separate(guid) && text == UUID_DISK + "=" + guid + ";" + more
    ensures After(text, ';') == Some(more)
  {
    CutAt(UUID_DISK + "=" + guid, ';', more);
  }

  lemma ParseIs(text: string, val: string, s: string, blksz: nat, env: Env)
    requires blksz > 0 && ValueOf(text, UUID_DISK) == Some(val) && After(text, ';') == Some(s) && s != ""
    ensures Parse(Some(text), blksz, env) == Laid(Expand(env, Until(val, ';')), PartsOf(Trimmed(s), blksz, env))
  {
  }

  /** The guid is found whatever follows it, and the rest decides the partitions. */
  lemma GuidReads(text: string, guid: string, s: string, blksz: nat, env: Env)
    requires blksz > 0 && text == UUID_DISK + "=" + guid + ";" + s && Separate(guid) && Plain(env, guid) && s != ""
    ensures Parse(Some(text), blksz, env) == Laid(guid, PartsOf(Trimmed(s), blksz, env))
  {
    var val := guid + ";" + Until(s, ',');
    GuidValue(guid, s, text);
    GuidRest(guid, s, text);
    CutAt(guid, ';', Until(s, ','));
    ParseIs(text, val, s, blksz, env);
  }

  lemma LayoutIs(guid: string, ps: seq<DiskPart>, text: string)
    requires text == LayoutText(guid, ps) && |guid| <= UUID_STR_LEN
    ensures text == UUID_DISK + "=" + guid + ";" + Ended(EntryTexts(ps))
  {
    assert "uuid_disk=" == UUID_DISK + "=";
  }

  lemma TrimmedIs(s: string)
    requires s != "" && s[|s| - 1] == ';' && |s| <= MAX_STR_PART
    ensures Trimmed(s) == Butlast(s)
  {
  }

  lemma PartsParsed(text: string, guid: string, s: string, t: string, parts: seq<Part>, blksz: nat, env: Env)
    requires text == UUID_DISK + "=" + guid + ";" + s && s != "" && t == Trimmed(s)
    requires blksz > 0 && PartsOf(t, blksz, env) == Ok(parts) && |parts| < 256
    requires Separate(guid) && Plain(env, guid)
    ensures Parse(Some(text), blksz, env) == Ok(Layout(guid, parts, |parts|))
  {
    var r := Parse(Some(text), blksz, env);
    assert r == Laid(guid, Ok(parts)) by {
      GuidReads(text, guid, s, blksz, env);
    }
    LaidSmall(guid, parts);
  }

  lemma LaidSmall(guid: string, parts: seq<Part>)
    requires |parts| < 256
    ensures Laid(guid, Ok(parts)) == Ok(Layout(guid, parts, |parts|))
  {
  }

  lemma EntriesParsed(text: string, guid: string, es: seq<string>, parts: seq<Part>, blksz: nat, env: Env)
    requires text == UUID_DISK + "=" + guid + ";" + Ended(es)
    requires es != [] && blksz > 0 && EntriesAre(es, parts, blksz, env) && |parts| < 256
    requires Separate(guid) && Plain(env, guid) && |Ended(es)| <= MAX_STR_PART
    ensures Parse(Some(text), blksz, env) == Ok(Layout(guid, parts, |parts|))
  {
    EndedReads(es, parts, blksz, env);
    TrimmedIs(Ended(es));
    PartsParsed(text, guid, Ended(es), Butlast(Ended(es)), parts, blksz, env);
  }

  /** `set_gpt_info` reads the text of a layout as that layout, but for the bootable flags. */
  predicate ComesBack(guid: string, ps: seq<DiskPart>, blksz: nat, env: Env)
    requires blksz > 0
  {
    Parse(Some(LayoutText(guid, ps)), blksz, env) == Ok(Layout(guid, AllBack(ps), |ps|))
  }

  lemma LayoutComesBack(guid: string, ps: seq<DiskPart>, blksz: nat, env: Env)
    requires ps != [] && blksz > 0 && AllGood(ps, blksz, env)
    requires |guid| <= UUID_STR_LEN && Separate(guid) && Plain(env, guid)
    requires |Ended(EntryTexts(ps))| <= MAX_STR_PART
    ensures ComesBack(guid, ps, blksz, env)
  {
    EntriesRead(ps, blksz, env);
    LayoutIs(guid, ps, LayoutText(guid, ps));
    EntriesParsed(LayoutText(guid, ps), guid, EntryTexts(ps), AllBack(ps), blksz, env);
  }

  /** An empty list is written but not read. */
  lemma EmptyLayoutRefused(guid: string, blksz: nat, env: Env)
    requires blksz > 0 && |guid| <= UUID_STR_LEN && Separate(guid)
    ensures Parse(Some(LayoutText(guid, [])), blksz, env) == Err(-3)
  {
    var text := LayoutText(guid, []);
    LayoutIs(guid, [], text);
    assert Ended([]) == "" && EntryTexts([]) == [];
    GuidValue(guid, "", text);
    GuidRest(guid, "", text);
  }

  /** What an entry's text yields for the name is cut at its first comma. */
  lemma NameCut(p: DiskPart, tok: string)
    requires |p.name| <= PART_NAME_LEN && tok == Joined(Fields(p))
    ensures ValueOf(tok, "name") == Some(Until(p.name, ','))
    ensures Until(p.name, ',') == p.name <==> ',' !in p.name
  {
    var fs := Fields(p);
    CutValue("name", p.name, Joined(fs[1..]));
  }
}
