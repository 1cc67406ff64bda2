/**
 Partition layouts as people write them, in the form of `doc/README.gpt`: amounts with a K, M or G, values that
 stand in environment variables, optional starts, bootable partitions.
 */
module GptAmounts {
  import opened Arithmetic
  import opened CText
  import opened GptFields
  import opened GptText
  import opened GptRoundTrip

  // ----- amounts

  /** What the character behind a number multiplies it with. */
  function Factor(c: char): nat {
    if c == 'k' || c == 'K' then 1024
    else if c == 'm' || c == 'M' then 1048576
    else if c == 'g' || c == 'G' then 1073741824
    else 1
  }

  lemma KiloTwice(n: nat)
    ensures Kilo(n % TWO64) == n * 1024 % TWO64
    ensures Kilo(Kilo(n % TWO64)) == n * 1048576 % TWO64
    ensures Kilo(Kilo(Kilo(n % TWO64))) == n * 1073741824 % TWO64
  {
    KiloOnce(n);
    KiloOnce(n * 1024);
    KiloOnce(n * 1048576);
  }

  lemma KiloOnce(n: nat)
    ensures Kilo(n % TWO64) == n * 1024 % TWO64
  {
    DivMod(n, TWO64);
    var q, r := n / TWO64, n % TWO64;
    DivMod(r * 1024, TWO64);
    DivModUnique(n * 1024, TWO64, q * 1024 + r * 1024 / TWO64, r * 1024 % TWO64);
  }

  lemma NumberMod(p: string, digits: string, tail: string, radix: nat, v: nat)
    requires Body(p, 0) == digits + tail && Radix(p, 0) == radix
    requires AllDigits(digits, radix) && Digit(At(tail, 0)) >= radix && Value(digits, radix) == v
    ensures Number(p, 0) == v % TWO64 && Rest(p, 0) == tail
  {
    DigitsAre(digits, radix, tail);
    assert (digits + tail)[|digits|..] == tail;
  }

  lemma ScaledAs(p: string, v: nat, c: char)
    requires Number(p, 0) == v % TWO64 && At(Rest(p, 0), 0) == c
    ensures Scaled(p) == v * Factor(c) % TWO64
  {
    KiloTwice(v);
  }

  /** A number and the character behind it: their product, modulo 2^64. */
  lemma ScaledIs(p: string, digits: string, tail: string, radix: nat, v: nat)
    requires Body(p, 0) == digits + tail && Radix(p, 0) == radix
    requires AllDigits(digits, radix) && Digit(At(tail, 0)) >= radix && Value(digits, radix) == v
    ensures Scaled(p) == v * Factor(At(tail, 0)) % TWO64
  {
    NumberMod(p, digits, tail, radix, v);
    ScaledAs(p, v, At(tail, 0));
  }

  /** For hexadecimal text with its prefix. */
  lemma HexAmount(digits: string, tail: string)
    requires digits != "" && AllDigits(digits, 16) && Digit(At(tail, 0)) >= 16
    ensures Scaled("0x" + digits + tail) == Value(digits, 16) * Factor(At(tail, 0)) % TWO64
  {
    PrefixedBody(digits, tail);
    ScaledIs("0x" + digits + tail, digits, tail, 16, Value(digits, 16));
  }

  /** What may follow a decimal number: nothing that would go on with it. */
  predicate Ends(unit: string) {
    Digit(At(unit, 0)) >= 10 && Lower(At(unit, 0)) != 'x' && Separate(unit)
  }

  lemma DecAmount(n: nat, unit: string)
    requires Ends(unit)
    ensures Scaled(Dec(n) + unit) == n * Factor(At(unit, 0)) % TWO64
  {
    DecNumber(n, unit);
    ScaledIs(Dec(n) + unit, Dec(n), unit, Radix(Dec(n) + unit, 0), n);
  }

  // ----- values and references

  /** The text is the value itself, or refers to a variable that holds it. */
  ghost predicate Means(env: Env, v: string, x: string) {
    (v == x && Plain(env, v)) || exists k :: k != "" && v == "${" + k + "}" && k in env && env[k] == x
  }

  lemma ExpandMeans(env: Env, v: string, x: string)
    requires Means(env, v, x)
    ensures Expand(env, v) == x
  {
    if k :| k != "" && v == "${" + k + "}" && k in env && env[k] == x {
      assert v[2..|v| - 1] == k && v[..2] == "${";
    }
  }

  /** The text means so many blocks: an amount in bytes, divided by the block size. */
  ghost predicate MeansBlocks(env: Env, v: string, blksz: nat, blocks: nat)
    requires blksz > 0
  {
    exists n: nat, unit: string ::
      Ends(unit) && Means(env, v, Dec(n) + unit) && blocks == n * Factor(At(unit, 0)) % TWO64 / blksz
  }

  lemma NotDash(n: nat, unit: string)
    ensures Dec(n) + unit != "-"
  {
    NumeralReads(n, 10);
    assert (Dec(n) + unit)[0] == Dec(n)[0];
    assert Digit(Dec(n)[0]) < 10;
  }

  lemma BlocksMeant(env: Env, v: string, blksz: nat, blocks: nat)
    requires blksz > 0 && MeansBlocks(env, v, blksz, blocks)
    ensures SizeOf(Expand(env, v), blksz) == blocks && StartOf(Some(v), blksz, env) == blocks
  {
    var n: nat, unit: string :|
      Ends(unit) && Means(env, v, Dec(n) + unit) && blocks == n * Factor(At(unit, 0)) % TWO64 / blksz;
    ExpandMeans(env, v, Dec(n) + unit);
    DecAmount(n, unit);
    NotDash(n, unit);
  }

  // ----- entries

  /** The values of one entry as they are written; a size of "-" is left to the partition table. */
  datatype Entry = Entry(name: string, start: Option<string>, size: string, uuid: string, bootable: bool)

  predicate Writable(e: Entry) {
    Separate(e.name) && (e.start.Some? ==> Separate(e.start.value)) && Separate(e.size) && Separate(e.uuid)
  }

  function EntryFields(e: Entry): (fs: seq<Field>)
    ensures fs != []
  {
    [Field("name", e.name)] + (if e.start.Some? then [Field("start", e.start.value)] else [])
    + [Field("size", e.size), Field("uuid", e.uuid)]
  }

  function EntryText(e: Entry): string {
    Joined(EntryFields(e)) + if e.bootable then ",bootable" else ""
  }

  /** What the entry says. */
  ghost predicate Says(env: Env, blksz: nat, e: Entry, p: Part)
    requires blksz > 0
  {
    && Means(env, e.name, p.name) && |p.name| < PART_NAME_LEN
    && Means(env, e.uuid, p.uuid) && |p.uuid| <= UUID_STR_LEN
    && (if Means(env, e.size, "-") then p.size == 0 else MeansBlocks(env, e.size, blksz, p.size))
    && (if e.start.Some? then MeansBlocks(env, e.start.value, blksz, p.start) else p.start == 0)
    && p.bootable == e.bootable
  }

  /** Fields and a bare key behind them. */
  lemma {:induction false} WithBareKey(fs: seq<Field>, bare: string, key: string)
    requires fs != [] && (forall i :: 0 <= i < |fs| ==> Clean(fs[i])) && ',' !in bare && '=' !in bare && '=' !in key
    ensures bare != key ==> ValueOf(Joined(fs) + "," + bare, key) == Lookup(fs, key)
    ensures HasKey(Joined(fs) + "," + bare, key) <==> bare == key
  {
    var first, text := Text(fs[0]), Joined(fs) + "," + bare;
    FieldParts(fs[0]);
    assert first[|fs[0].key|] == '=';
    if |fs| == 1 {
      CutAt(first, ',', bare);
      CutNone(bare, ',');
      CutNone(bare, '=');
      assert Lookup(fs[1..], key) == None;
    } else {
      var more := Joined(fs[1..]) + "," + bare;
      WithBareKey(fs[1..], bare, key);
      assert text == first + "," + more;
      CutAt(first, ',', more);
    }
  }

  lemma EntryClean(e: Entry)
    requires Writable(e)
    ensures forall i :: 0 <= i < |EntryFields(e)| ==> Clean(EntryFields(e)[i])
  {
  }

  lemma EntryLookup(e: Entry)
    ensures var fs := EntryFields(e);
            && Lookup(fs, "name") == Some(e.name) && Lookup(fs, "start") == e.start
            && Lookup(fs, "size") == Some(e.size) && Lookup(fs, "uuid") == Some(e.uuid)
  {
    assert "name"[0] == 'n' && "start"[1] == 't' && "size"[1] == 'i' && "uuid"[0] == 'u';
    var fs, n := EntryFields(e), if e.start.Some? then 2 else 1;
    var last := [Field("size", e.size), Field("uuid", e.uuid)];
    assert fs[n..] == last && last[1..] == [Field("uuid", e.uuid)] && last[1..][1..] == [];
    assert Lookup(last[1..], "uuid") == Some(e.uuid) && Lookup(last[1..], "start") == None;
    assert Lookup(last, "uuid") == Some(e.uuid) && Lookup(last, "start") == None;
    assert Lookup(last, "size") == Some(e.size);
    assert e.start.Some? ==> fs[1..][1..] == last;
  }

  lemma EntryValueOf(e: Entry, key: string)
    requires Writable(e) && '=' !in key && key != "bootable"
    ensures ValueOf(EntryText(e), key) == Lookup(EntryFields(e), key)
    ensures HasKey(EntryText(e), "bootable") == e.bootable
  {
    var fs := EntryFields(e);
    EntryClean(e);
    if e.bootable {
      assert Joined(fs) + ",bootable" == Joined(fs) + "," + "bootable";
      WithBareKey(fs, "bootable", key);
      WithBareKey(fs, "bootable", "bootable");
    } else {
      assert EntryText(e) == Joined(fs);
      ValueOfJoined(fs, key);
      NoBareKey(fs, "bootable");
    }
  }

  lemma PartIs(tok: string, blksz: nat, env: Env, e: Entry, p: Part)
    requires blksz > 0 && |p.uuid| <= UUID_STR_LEN && |p.name| < PART_NAME_LEN
    requires ValueOf(tok, "uuid") == Some(e.uuid) && Expand(env, e.uuid) == p.uuid
    requires ValueOf(tok, "name") == Some(e.name) && Expand(env, e.name) == p.name
    requires ValueOf(tok, "size") == Some(e.size) && SizeOf(Expand(env, e.size), blksz) == p.size
    requires ValueOf(tok, "start") == e.start && StartOf(e.start, blksz, env) == p.start
    requires HasKey(tok, "bootable") == p.bootable
    ensures PartOf(tok, blksz, env) == Ok(p)
  {
  }

  /** An entry is read as the partition that it says. */
  lemma EntrySaid(e: Entry, p: Part, blksz: nat, env: Env)
    requires blksz > 0 && Writable(e) && Says(env, blksz, e, p)
    ensures PartOf(EntryText(e), blksz, env) == Ok(p)
  {
    EntryLookup(e);
    EntryValueOf(e, "name");
    EntryValueOf(e, "start");
    EntryValueOf(e, "size");
    EntryValueOf(e, "uuid");
    ExpandMeans(env, e.name, p.name);
    ExpandMeans(env, e.uuid, p.uuid);
    if Means(env, e.size, "-") {
      ExpandMeans(env, e.size, "-");
    } else {
      BlocksMeant(env, e.size, blksz, p.size);
    }
    if e.start.Some? {
      BlocksMeant(env, e.start.value, blksz, p.start);
    }
    PartIs(EntryText(e), blksz, env, e, p);
  }

  // ----- layouts

  function EntryList(es: seq<Entry>): (ts: seq<string>)
    ensures |ts| == |es|
  {
    seq(|es|, i requires 0 <= i < |es| => EntryText(es[i]))
  }

  /** The entries with ';' between them, and behind the last one or not. */
  function LayoutOf(guid: string, es: seq<Entry>, ended: bool): string
    requires es != []
  {
    EndedLast(EntryList(es));
    UUID_DISK + "=" + guid + ";" + if ended then Ended(EntryList(es)) else Butlast(Ended(EntryList(es)))
  }

  lemma EntryOne(e: Entry)
    requires Writable(e)
    ensures ';' !in EntryText(e) && EntryText(e) != ""
  {
    JoinedAvoids(EntryFields(e), ';');
  }

  lemma EntriesSaid(es: seq<Entry>, ps: seq<Part>, blksz: nat, env: Env)
    requires blksz > 0 && |es| == |ps|
    requires forall i :: 0 <= i < |es| ==> Writable(es[i]) && Says(env, blksz, es[i], ps[i])
    ensures EntriesAre(EntryList(es), ps, blksz, env)
    ensures forall i :: 0 <= i < |es| ==> EntryList(es)[i] != ""
  {
    forall i | 0 <= i < |es|
      ensures EntryList(es)[i] != "" && ';' !in EntryList(es)[i] && PartOf(EntryList(es)[i], blksz, env) == Ok(ps[i])
    {
      EntryOne(es[i]);
      EntrySaid(es[i], ps[i], blksz, env);
    }
  }

  lemma {:induction false} ButlastEnds(ts: seq<string>)
    requires ts != [] && forall i :: 0 <= i < |ts| ==> ts[i] != "" && ';' !in ts[i]
    ensures Ended(ts) != "" && Butlast(Ended(ts)) != ""
    ensures Butlast(Ended(ts))[|Butlast(Ended(ts))| - 1] != ';'
  {
    var last := ts[|ts| - 1];
    assert Ended(ts) == Ended(ts[..|ts| - 1]) + last + ";";
    assert Butlast(Ended(ts)) == Ended(ts[..|ts| - 1]) + last;
    assert last[|last| - 1] in last;
  }

  lemma TrimmedOne(s: string)
    requires s != "" && s[|s| - 1] != ';' && |s| <= MAX_STR_PART
    ensures Trimmed(s) == s
  {
  }

  /** The guid may stand in a variable, too. */
  lemma GuidMeant(text: string, v: string, guid: string, s: string, blksz: nat, env: Env)
    requires blksz > 0 && text == UUID_DISK + "=" + v + ";" + s && Separate(v) && Means(env, v, guid) && s != ""
    ensures Parse(Some(text), blksz, env) == Laid(guid, PartsOf(Trimmed(s), blksz, env))
  {
    var val := v + ";" + Until(s, ',');
    GuidValue(v, s, text);
    GuidRest(v, s, text);
    CutAt(v, ';', Until(s, ','));
    ParseIs(text, val, s, blksz, env);
    ExpandMeans(env, v, guid);
  }

  lemma EntriesTrimmed(ts: seq<string>, s: string, ended: bool)
    requires ts != [] && forall i :: 0 <= i < |ts| ==> ts[i] != "" && ';' !in ts[i]
    requires Ended(ts) != "" && s == (if ended then Ended(ts) else Butlast(Ended(ts))) && |s| <= MAX_STR_PART
    ensures s != "" && Trimmed(s) == Butlast(Ended(ts))
  {
    ButlastEnds(ts);
    EndedLast(ts);
    if ended {
      TrimmedIs(s);
    } else {
      TrimmedOne(s);
    }
  }

  /** A layout in this form is read as the guid and the partitions that it says. */
  lemma LayoutSaid(v: string, guid: string, es: seq<Entry>, ps: seq<Part>, ended: bool, blksz: nat, env: Env)
    requires blksz > 0 && 1 <= |es| == |ps| < 256 && Separate(v) && Means(env, v, guid)
    requires forall i :: 0 <= i < |es| ==> Writable(es[i]) && Says(env, blksz, es[i], ps[i])
    requires |LayoutOf(v, es, ended)| <= MAX_STR_PART
    ensures Parse(Some(LayoutOf(v, es, ended)), blksz, env) == Ok(Layout(guid, ps, |ps|))
  {
    var ts := EntryList(es);
    EntriesSaid(es, ps, blksz, env);
    EndedReads(ts, ps, blksz, env);
    var s := if ended then Ended(ts) else Butlast(Ended(ts));
    EntriesTrimmed(ts, s, ended);
    GuidMeant(LayoutOf(v, es, ended), v, guid, s, blksz, env);
    LaidSmall(guid, ps);
  }

  lemma SixtyText()
    ensures Dec(60) + "MiB" == "60MiB"
  {
    assert Dec(6) == "6" && Dec(60) == "6" + "0";
  }

  /** `60MiB` is 62914560 bytes. */
  lemma SixtyMiB()
    ensures Scaled("60MiB") == 62914560
  {
    SixtyText();
    DecAmount(60, "MiB");
  }
}
