/**
 The partition layout text of the `gpt` command: `create_gpt_partitions_list` writes it and
 `set_gpt_info` reads it. Configured with 64-bit block numbers and partition uuids, without random
 uuids and type guids; the environment is a parameter.
 */
module GptText {
  import opened Arithmetic
  import opened CText
  import opened GptFields

  const PART_NAME_LEN := 32
  const UUID_STR_LEN := 36
  const EINVAL := 22

  const MAX_SEARCH_PARTITIONS := 64
  const LBA_BYTES := 8

  /** The bytes that are allocated for the text of so many partitions. */
  function CalcPartsListLen(numparts: nat): (len: nat)
    ensures len == 49 + 119 * numparts
  {
    UUID_STR_LEN + 1 + |"uuid_disk="| + 1
    + numparts * (|"name=,"| + PART_NAME_LEN + 1)
    + numparts * (|"start=MiB,"| + LBA_BYTES + 1)
    + numparts * (|"size=MiB,"| + LBA_BYTES + 1)
    + numparts * (|"uuid=;"| + UUID_STR_LEN + 1)
    + 1
  }

  const MAX_STR_PART := CalcPartsListLen(MAX_SEARCH_PARTITIONS)

  type Env = map<string, string>

  datatype DiskPart = DiskPart(start: nat, size: nat, blksz: nat, name: string, uuid: string, bootable: bool)
  datatype Part = Part(start: nat, size: nat, name: string, uuid: string, bootable: bool)
  datatype Layout = Layout(guid: string, parts: seq<Part>, count: nat)
  datatype Result<T> = Ok(value: T) | Err(code: int)

  // ----- writing

  /** What `strncat` appends at most. */
  function Clip(s: string, n: nat): string {
    if |s| <= n then s else s[..n]
  }

  function Bytes(blocks: nat, blksz: nat): nat {
    blocks * blksz % TWO64
  }

  function Fields(p: DiskPart): seq<Field> {
    [Field("name", Clip(p.name, PART_NAME_LEN + 1)),
     Field("start", "0x" + Hex(Bytes(p.start, p.blksz))),
     Field("size", "0x" + Hex(Bytes(p.size, p.blksz))),
     Field("uuid", Clip(p.uuid, UUID_STR_LEN + 1))]
  }

  function EntryTexts(ps: seq<DiskPart>): (es: seq<string>)
    ensures |es| == |ps|
  {
    seq(|ps|, i requires 0 <= i < |ps| => Joined(Fields(ps[i])))
  }

  /** Every entry is followed by a ';'. */
  function Ended(es: seq<string>): string {
    if es == [] then "" else Ended(es[..|es| - 1]) + es[|es| - 1] + ";"
  }

  function Head(guid: string): string {
    "uuid_disk=" + Clip(guid, UUID_STR_LEN + 1) + ";"
  }

  function LayoutText(guid: string, ps: seq<DiskPart>): string {
    Head(guid) + Ended(EntryTexts(ps))
  }

  lemma JoinedFour(fs: seq<Field>)
    requires |fs| == 4
    ensures Joined(fs) == Text(fs[0]) + "," + (Text(fs[1]) + "," + (Text(fs[2]) + "," + Text(fs[3])))
  {
    var fs1 := fs[1..];
    var fs2 := fs1[1..];
    assert Joined(fs2) == Text(fs2[0]) + "," + Joined(fs2[1..]);
    assert Joined(fs1) == Text(fs1[0]) + "," + Joined(fs2);
  }

  lemma Regroup(a: string, b: string, c: string, d: string, e: string)
    ensures a + b + ("," + c) + ("," + d) + ("," + e) + ";" == a + (b + "," + (c + "," + (d + "," + e))) + ";"
  {
  }

  /** The buffer holds the text and its terminator, and `end` is where that stands; none if they do not fit. */
  ghost predicate Holds(list: array<char>, end: Option<nat>, text: string)
    reads list
  {
    && end == (if |text| < list.Length then Some(|text|) else None)
    && (end.Some? ==> list[..|text|] == text && list[|text|] == '\0')
  }

  /** `strcat` in a buffer; once the text has outgrown it, it stays so. */
  method StrCat(list: array<char>, end: Option<nat>, s: string, ghost text: string) returns (end': Option<nat>)
    requires Holds(list, end, text)
    modifies list
    ensures Holds(list, end', text + s)
  {
    if end.None? || end.value + |s| >= list.Length {
      return None;
    }
    var n := end.value;
    for i := 0 to |s|
      invariant list[..n + i] == text + s[..i]
    {
      list[n + i] := s[i];
    }
    list[n + |s|] := '\0';
    assert s[..|s|] == s;
    end' := Some(n + |s|);
  }

  method StrCpy(list: array<char>, s: string) returns (end: Option<nat>)
    modifies list
    ensures Holds(list, end, s)
  {
    if list.Length == 0 {
      return None;
    }
    list[0] := '\0';
    end := StrCat(list, Some(0), s, "");
    assert "" + s == s;
  }

  method CreateEntry(list: array<char>, end: Option<nat>, p: DiskPart, ghost text: string) returns (end': Option<nat>)
    requires Holds(list, end, text)
    modifies list
    ensures Holds(list, end', text + Joined(Fields(p)) + ";")
  {
    var name := Text(Field("name", Clip(p.name, PART_NAME_LEN + 1)));
    var start := Text(Field("start", "0x" + Hex(Bytes(p.start, p.blksz))));
    var size := Text(Field("size", "0x" + Hex(Bytes(p.size, p.blksz))));
    var uuid := Text(Field("uuid", Clip(p.uuid, UUID_STR_LEN + 1)));
    end' := StrCat(list, end, name, text);
    end' := StrCat(list, end', "," + start, text + name);
    end' := StrCat(list, end', "," + size, text + name + ("," + start));
    end' := StrCat(list, end', "," + uuid, text + name + ("," + start) + ("," + size));
    end' := StrCat(list, end', ";", text + name + ("," + start) + ("," + size) + ("," + uuid));
    Regroup(text, name, start, size, uuid);
    JoinedFour(Fields(p));
  }

  lemma OneMore(head: string, es: seq<string>, i: nat, text: string)
    requires i < |es| && text == head + Ended(es[..i])
    ensures text + es[i] + ";" == head + Ended(es[..i + 1])
  {
    assert es[..i + 1][..i] == es[..i];
    assert text + es[i] + ";" == head + (Ended(es[..i]) + es[i] + ";");
  }

  method CreateEntries(list: array<char>, end: Option<nat>, ps: seq<DiskPart>, ghost head: string)
    returns (end': Option<nat>)
    requires Holds(list, end, head)
    modifies list
    ensures Holds(list, end', head + Ended(EntryTexts(ps)))
  {
    ghost var text, es := head, EntryTexts(ps);
    end' := end;
    for i := 0 to |ps|
      invariant Holds(list, end', text) && text == head + Ended(es[..i])
    {
      end' := CreateEntry(list, end', ps[i], text);
      OneMore(head, es, i, text);
      text := text + es[i] + ";";
    }
    assert es[..|ps|] == es;
  }

  method CreateHead(list: array<char>, guid: string) returns (end: Option<nat>)
    modifies list
    ensures Holds(list, end, Head(guid))
  {
    end := StrCpy(list, "uuid_disk=");
    end := StrCat(list, end, Clip(guid, UUID_STR_LEN + 1), "uuid_disk=");
    end := StrCat(list, end, ";", "uuid_disk=" + Clip(guid, UUID_STR_LEN + 1));
  }

  /** The text goes into the buffer of the caller if it fits there with its terminator. */
  method CreateGptPartitionsList(list: array<char>, guid: string, ps: seq<DiskPart>) returns (end: Option<nat>)
    modifies list
    ensures Holds(list, end, LayoutText(guid, ps))
  {
    end := CreateHead(list, guid);
    end := CreateEntries(list, end, ps, Head(guid));
  }

  // ----- reading

  predicate IsReference(v: string) {
    |v| >= 4 && v[..2] == "${" && v[|v| - 1] == '}'
  }

  /** `extract_env`: a reference to a variable that is set stands for its value. */
  function Expand(env: Env, v: string): string {
    if IsReference(v) && v[2..|v| - 1] in env then env[v[2..|v| - 1]] else v
  }

  function Kilo(n: nat): nat {
    n * 1024 % TWO64
  }

  /** `ustrtoull` in base 0. */
  function Scaled(p: string): nat {
    var n := Number(p, 0);
    match Lower(At(Rest(p, 0), 0))
    case 'g' => Kilo(Kilo(Kilo(n)))
    case 'm' => Kilo(Kilo(n))
    case 'k' => Kilo(n)
    case _ => n
  }

  function Lldiv(x: nat, d: nat): nat
    requires d > 0
  {
    x / d
  }

  function SizeOf(p: string, blksz: nat): nat
    requires blksz > 0
  {
    if p == "-" then 0 else Lldiv(Scaled(p), blksz)
  }

  function StartOf(v: Option<string>, blksz: nat, env: Env): nat
    requires blksz > 0
  {
    if v.None? then 0 else Lldiv(Scaled(Expand(env, v.value)), blksz)
  }

  function PartOf(tok: string, blksz: nat, env: Env): Result<Part>
    requires blksz > 0
  {
    var uuid, name, size := ValueOf(tok, "uuid"), ValueOf(tok, "name"), ValueOf(tok, "size");
    if uuid.None? || |Expand(env, uuid.value)| > UUID_STR_LEN then Err(-4)
    else if name.None? || |Expand(env, name.value)| >= PART_NAME_LEN then Err(-4)
    else if size.None? then Err(-4)
    else Ok(Part(StartOf(ValueOf(tok, "start"), blksz, env), SizeOf(Expand(env, size.value), blksz),
                 Expand(env, name.value), Expand(env, uuid.value), HasKey(tok, "bootable")))
  }

  function Prepend(ps: seq<Part>, r: Result<seq<Part>>): Result<seq<Part>> {
    if r.Ok? then Ok(ps + r.value) else r
  }

  /** The partitions of a list of entries with ';' between them. */
  function PartsOf(s: string, blksz: nat, env: Env): Result<seq<Part>>
    requires blksz > 0
    decreases |s|
  {
    match PartOf(Until(s, ';'), blksz, env)
    case Err(e) => Err(e)
    case Ok(p) =>
      match After(s, ';')
      case None => Ok([p])
      case Some(rest) => Prepend([p], PartsOf(rest, blksz, env))
  }

  /** A ';' that ends the text, or its first `MAX_STR_PART` characters, ends the list there. */
  function Trimmed(s: string): string
    requires s != ""
  {
    var n := if |s| <= MAX_STR_PART then |s| else MAX_STR_PART;
    if s[n - 1] == ';' then s[..n - 1] else s
  }

  /** The count is kept in one byte. */
  function Laid(guid: string, r: Result<seq<Part>>): Result<Layout> {
    if r.Ok? then Ok(Layout(guid, r.value, |r.value| % 256)) else Err(r.code)
  }

  function Parse(text: Option<string>, blksz: nat, env: Env): Result<Layout>
    requires blksz > 0
  {
    if text.None? then Err(-1)
    else
      var val, s := ValueOf(text.value, "uuid_disk"), After(text.value, ';');
      if val.None? then Err(-2)
      else if s.None? then Err(-EINVAL)
      else if s.value == "" then Err(-3)
      else Laid(Expand(env, Until(val.value, ';')), PartsOf(Trimmed(s.value), blksz, env))
  }

  method UStrToUll(p: string) returns (result: nat)
    ensures result == Scaled(p)
  {
    var endp;
    result, endp := StrToUll(p, 0);
    var c := Lower(At(endp, 0));
    if c == 'g' {
      result := Kilo(result);
    }
    if c == 'g' || c == 'm' {
      result := Kilo(result);
    }
    if c == 'g' || c == 'm' || c == 'k' {
      result := Kilo(result);
    }
  }

  method ReadPart(tok: string, blksz: nat, env: Env) returns (r: Result<Part>)
    requires blksz > 0
    ensures r == PartOf(tok, blksz, env)
  {
    var val := ExtractVal(tok, "uuid");
    if val.None? || |Expand(env, val.value)| > UUID_STR_LEN {
      return Err(-4);
    }
    var part := Part(0, 0, "", Expand(env, val.value), false);
    val := ExtractVal(tok, "name");
    if val.None? || |Expand(env, val.value)| >= PART_NAME_LEN {
      return Err(-4);
    }
    part := part.(name := Expand(env, val.value));
    val := ExtractVal(tok, "size");
    if val.None? {
      return Err(-4);
    }
    var p := Expand(env, val.value);
    if p != "-" {
      var bytes := UStrToUll(p);
      part := part.(size := Lldiv(bytes, blksz));
    }
    val := ExtractVal(tok, "start");
    if val.Some? {
      var bytes := UStrToUll(Expand(env, val.value));
      part := part.(start := Lldiv(bytes, blksz));
    }
    var found := FoundKey(tok, "bootable");
    r := Ok(part.(bootable := found));
  }

  /** How many entries there are: one more than the ';' between them. */
  function Pieces(s: Option<string>): nat
    decreases if s.Some? then |s.value| + 1 else 0
  {
    if s.None? then 0 else 1 + Pieces(After(s.value, ';'))
  }

  method CountPieces(s: string) returns (count: nat)
    ensures count == Pieces(Some(s))
  {
    count := 1;
    var i := 0;
    while i < |s|
      invariant 0 <= i <= |s|
      invariant count - 1 + Pieces(Some(s[i..])) == Pieces(Some(s))
    {
      assert s[i..][1..] == s[i + 1..];
      if s[i] == ';' {
        count := count + 1;
      }
      i := i + 1;
    }
  }

  lemma PrependTwice(a: seq<Part>, p: Part, r: Result<seq<Part>>)
    ensures Prepend([], r) == r
    ensures Prepend(a, Prepend([p], r)) == Prepend(a + [p], r)
  {
    if r.Ok? {
      assert [] + r.value == r.value;
      assert a + ([p] + r.value) == a + [p] + r.value;
    }
  }

  method ReadParts(s0: string, blksz: nat, env: Env) returns (r: Result<seq<Part>>)
    requires blksz > 0
    ensures r == PartsOf(s0, blksz, env)
    ensures r.Ok? ==> |r.value| == Pieces(Some(s0))
  {
    var count := CountPieces(s0);
    var parts := new Part[count](_ => Part(0, 0, "", "", false));
    var s := Some(s0);
    assert Prepend(parts[..0], PartsOf(s0, blksz, env)) == PartsOf(s0, blksz, env) by {
      assert parts[..0] == [];
      PrependTwice([], Part(0, 0, "", "", false), PartsOf(s0, blksz, env));
    }
    for i := 0 to count
      invariant i + Pieces(s) == count
      invariant PartsOf(s0, blksz, env) ==
                if s.Some? then Prepend(parts[..i], PartsOf(s.value, blksz, env)) else Ok(parts[..i])
    {
      var tok;
      tok, s := StrSep(s.value, ';');
      var p := ReadPart(tok, blksz, env);
      if p.Err? {
        return Err(p.code);
      }
      parts[i] := p.value;
      assert parts[..i + 1] == parts[..i] + [p.value];
      if s.Some? {
        PrependTwice(parts[..i], p.value, PartsOf(s.value, blksz, env));
      }
    }
    assert parts[..count] == parts[..];
    return Ok(parts[..]);
  }

  /** `set_gpt_info`. */
  method SetGptInfo(text: Option<string>, blksz: nat, env: Env) returns (r: Result<Layout>)
    requires blksz > 0
    ensures r == Parse(text, blksz, env)
  {
    if text.None? {
      return Err(-1);
    }
    var val := ExtractVal(text.value, "uuid_disk");
    if val.None? {
      return Err(-2);
    }
    var guid, s;
    guid, s := StrSep(val.value, ';');
    guid := Expand(env, guid);
    var first;
    first, s := StrSep(text.value, ';');
    if s.None? {
      return Err(-EINVAL);
    }
    if s.value == "" {
      return Err(-3);
    }
    var parts := ReadParts(Trimmed(s.value), blksz, env);
    if parts.Err? {
      return Err(parts.code);
    }
    r := Ok(Layout(guid, parts.value, |parts.value| % 256));
  }
}
