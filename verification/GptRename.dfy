/**
 Renaming partitions: `do_rename_gpt_parts` writes the layout into a buffer that is sized by the number of
 partitions, reads it back, changes names, and does both again in the same buffer. When the text fits, and
 what comes of each command.
 */
module GptRename {
  import opened CText
  import opened GptText
  import opened GptRoundTrip
  import opened GptExact

  // ----- when the text fits

  predicate Fits(guid: string, ps: seq<DiskPart>) {
    |LayoutText(guid, ps)| < CalcPartsListLen(|ps|)
  }

  function Total(ps: seq<DiskPart>, w: DiskPart -> nat): nat {
    if ps == [] then 0 else Total(ps[..|ps| - 1], w) + w(ps[|ps| - 1])
  }

  function Weights(ps: seq<DiskPart>): nat {
    Total(ps, Weight)
  }

  /** What the arrays for the guid, the names and the uuids can hold. */
  predicate Bounded(guid: string, ps: seq<DiskPart>) {
    |guid| <= UUID_STR_LEN &&
      forall i :: 0 <= i < |ps| ==> |ps[i].name| <= PART_NAME_LEN && |ps[i].uuid| <= UUID_STR_LEN
  }

  lemma {:induction false} EndedWeighs(ps: seq<DiskPart>)
    requires Bounded("", ps)
    ensures |Ended(EntryTexts(ps))| == 29 * |ps| + Weights(ps)
  {
    if ps != [] {
      var n := |ps| - 1;
      EndedWeighs(ps[..n]);
      EntryLength(ps[n]);
      assert EntryTexts(ps)[..n] == EntryTexts(ps[..n]);
    }
  }

  lemma TextWeighs(guid: string, ps: seq<DiskPart>)
    requires Bounded(guid, ps)
    ensures |LayoutText(guid, ps)| == 11 + |guid| + 29 * |ps| + Weights(ps)
  {
    EndedWeighs(ps);
    LayoutIs(guid, ps, LayoutText(guid, ps));
  }

  /** The text fits exactly if names, uuids and digits average at most 90, and 37 more with the guid. */
  lemma FitsIff(guid: string, ps: seq<DiskPart>)
    requires Bounded(guid, ps)
    ensures Fits(guid, ps) <==> |guid| + Weights(ps) <= 37 + 90 * |ps|
  {
    TextWeighs(guid, ps);
  }

  lemma {:induction false} WeightsBound(ps: seq<DiskPart>)
    requires forall i :: 0 <= i < |ps| ==> Weight(ps[i]) <= 90
    ensures Weights(ps) <= 90 * |ps|
  {
    if ps != [] {
      WeightsBound(ps[..|ps| - 1]);
    }
  }

  /** Partitions that weigh at most 90 each always fit. */
  lemma NinetyFit(guid: string, ps: seq<DiskPart>)
    requires Bounded(guid, ps) && forall i :: 0 <= i < |ps| ==> Weight(ps[i]) <= 90
    ensures Fits(guid, ps)
  {
    WeightsBound(ps);
    FitsIff(guid, ps);
  }

  lemma TwelveDigits(v: nat)
    requires v >= 0x1000_0000_0000
    ensures |Hex(v)| >= 12
  {
    HexLength(v, 11);
    assert Pow16(4) == 0x1_0000;
    assert Pow16(8) == 0x1_0000 * Pow16(4);
    assert Pow16(11) == 0x1000 * Pow16(8);
  }

  /** A full name and uuid, and start and size of at least 2^44 bytes. */
  predicate Large(p: DiskPart) {
    && |p.name| == PART_NAME_LEN - 1 && |p.uuid| == UUID_STR_LEN
    && Bytes(p.start, p.blksz) >= 0x1000_0000_0000 && Bytes(p.size, p.blksz) >= 0x1000_0000_0000
  }

  lemma LargeWeighs(p: DiskPart)
    requires Large(p)
    ensures Weight(p) >= 91
  {
    TwelveDigits(Bytes(p.start, p.blksz));
    TwelveDigits(Bytes(p.size, p.blksz));
  }

  lemma {:induction false} LargeTotal(ps: seq<DiskPart>)
    requires forall i :: 0 <= i < |ps| ==> Large(ps[i])
    ensures Weights(ps) >= 91 * |ps|
  {
    if ps != [] {
      LargeTotal(ps[..|ps| - 1]);
      LargeWeighs(ps[|ps| - 1]);
    }
  }

  /** Two or more such partitions never fit. */
  lemma LargeOverrun(guid: string, ps: seq<DiskPart>)
    requires |guid| == UUID_STR_LEN && |ps| >= 2 && forall i :: 0 <= i < |ps| ==> Large(ps[i])
    ensures !Fits(guid, ps)
  {
    LargeTotal(ps);
    FitsIff(guid, ps);
  }

  /** As long as an entry can be: a full name, a full uuid and sixteen digits twice. */
  function Widest(): DiskPart {
    DiskPart(0x8_0000_0000_0000, 0x8_0000_0000_0000, 512, seq(31, _ => 'n'), seq(36, _ => '0'), false)
  }

  /** One such partition is read from its text, but the text takes 176 bytes where 168 are allocated. */
  lemma WidestOverruns(guid: string, env: Env)
    requires |guid| == UUID_STR_LEN && Separate(guid) && Plain(env, guid)
    ensures ComesBack(guid, [Widest()], 512, env) && !Fits(guid, [Widest()])
    ensures |LayoutText(guid, [Widest()])| + 1 == 176 && CalcPartsListLen(1) == 168
  {
    var p := Widest();
    assert Bytes(p.start, p.blksz) == 0x1000_0000_0000_0000;
    assert Good(p, 512, env);
    LongestLength(p);
    EntryLength(p);
    assert [p][..0] == [];
    EndedWeighs([p]);
    LayoutIs(guid, [p], LayoutText(guid, [p]));
    FiftyNineComeBack(guid, [p], 512, env);
  }

  // ----- what fits comes back

  predicate AllButName(ps: seq<DiskPart>, blksz: nat, env: Env) {
    forall i :: 0 <= i < |ps| ==> GoodButName(ps[i], blksz, env)
  }

  /** As many partitions as `get_gpt_info` looks for. */
  predicate Listable(ps: seq<DiskPart>) {
    1 <= |ps| <= MAX_SEARCH_PARTITIONS
  }

  lemma FittingIsReadWhole(guid: string, ps: seq<DiskPart>)
    requires Listable(ps) && Bounded(guid, ps) && Fits(guid, ps)
    ensures |Ended(EntryTexts(ps))| <= MAX_STR_PART
  {
    LayoutIs(guid, ps, LayoutText(guid, ps));
  }

  predicate GoodNames(ps: seq<DiskPart>) {
    forall i :: 0 <= i < |ps| ==> GoodName(ps[i].name)
  }

  /** Of the partitions that fit, exactly those come back whose names are short and hold no separator. */
  lemma FittingComesBackIff(guid: string, ps: seq<DiskPart>, blksz: nat, env: Env)
    requires Listable(ps) && blksz > 0 && Fits(guid, ps) && AllButName(ps, blksz, env)
    requires |guid| <= UUID_STR_LEN && Separate(guid) && Plain(env, guid)
    ensures ComesBack(guid, ps, blksz, env) <==> GoodNames(ps)
  {
    FittingIsReadWhole(guid, ps);
    NamesComeBackIff(guid, ps, blksz, env);
  }

  lemma FittingComesBack(guid: string, ps: seq<DiskPart>, blksz: nat, env: Env)
    requires Listable(ps) && blksz > 0 && AllGood(ps, blksz, env) && Fits(guid, ps)
    requires |guid| <= UUID_STR_LEN && Separate(guid) && Plain(env, guid)
    ensures ComesBack(guid, ps, blksz, env)
  {
    FittingIsReadWhole(guid, ps);
    LayoutComesBack(guid, ps, blksz, env);
  }

  // ----- the command

  /** The text did not fit; a step was refused; or this layout goes to the disk. */
  datatype Outcome = Overrun | Refused(code: int) | Accepted(layout: Layout)

  /** `info` is what `part_get_info` returns for the partition number. */
  datatype Command = Swap(name1: string, name2: string) | Rename(partnum: int, name2: string, info: int)

  function Verdict(r: Result<Layout>): Outcome {
    if r.Ok? then Accepted(r.value) else Refused(r.code)
  }

  /** Writing the layout into so much room and reading it back. */
  function Reread(room: nat, guid: string, ps: seq<DiskPart>, blksz: nat, env: Env): Outcome
    requires blksz > 0
  {
    if |LayoutText(guid, ps)| < room then Verdict(Parse(Some(LayoutText(guid, ps)), blksz, env)) else Overrun
  }

  function Exchanged(p: DiskPart, name1: string, name2: string): DiskPart {
    if p.name == name1 then p.(name := name2) else if p.name == name2 then p.(name := name1) else p
  }

  function Swapped(ps: seq<DiskPart>, name1: string, name2: string): (qs: seq<DiskPart>)
    ensures |qs| == |ps|
  {
    seq(|ps|, i requires 0 <= i < |ps| => Exchanged(ps[i], name1, name2))
  }

  function One(p: DiskPart, name: string): nat {
    if p.name == name then 1 else 0
  }

  /** How many partitions have a name. */
  function Named(ps: seq<DiskPart>, name: string): nat {
    if ps == [] then 0 else Named(ps[..|ps| - 1], name) + One(ps[|ps| - 1], name)
  }

  /** Names are swapped in pairs: there are partitions of both, and as many of each. */
  predicate Pairs(ps: seq<DiskPart>, name1: string, name2: string) {
    name1 != name2 && Named(ps, name1) == Named(ps, name2) >= 1
  }

  function Renamed(ps: seq<DiskPart>, partnum: int, name: string): (qs: seq<DiskPart>)
    ensures |qs| == |ps|
  {
    if 1 <= partnum <= |ps| then ps[partnum - 1 := ps[partnum - 1].(name := name)] else ps
  }

  function Changed(cmd: Command, ps: seq<DiskPart>): Result<seq<DiskPart>> {
    match cmd
    case Swap(name1, name2) =>
      if |name1| > PART_NAME_LEN || |name2| > PART_NAME_LEN || !Pairs(ps, name1, name2) then Err(-EINVAL)
      else Ok(Swapped(ps, name1, name2))
    case Rename(partnum, name2, info) =>
      if |name2| > PART_NAME_LEN || partnum < 0 || partnum > |ps| then Err(-EINVAL)
      else if info < 0 then Err(info)
      else Ok(Renamed(ps, partnum, name2))
  }

  function Effect(cmd: Command, guid: string, ps: seq<DiskPart>, blksz: nat, env: Env): Outcome
    requires blksz > 0
  {
    var room := CalcPartsListLen(|ps|);
    var first := Reread(room, guid, ps, blksz, env);
    if !first.Accepted? then first
    else
      match Changed(cmd, ps)
      case Err(code) => Refused(code)
      case Ok(qs) => Reread(room, guid, qs, blksz, env)
  }

  method WriteAndRead(list: array<char>, guid: string, ps: seq<DiskPart>, blksz: nat, env: Env) returns (o: Outcome)
    requires blksz > 0
    modifies list
    ensures o == Reread(list.Length, guid, ps, blksz, env)
  {
    var end := CreateGptPartitionsList(list, guid, ps);
    if end.None? {
      return Overrun;
    }
    var r := SetGptInfo(Some(list[..end.value]), blksz, env);
    o := Verdict(r);
  }

  lemma NamedNext(ps: seq<DiskPart>, i: nat, name: string)
    requires i < |ps|
    ensures Named(ps[..i + 1], name) == Named(ps[..i], name) + One(ps[i], name)
  {
    assert ps[..i + 1][..i] == ps[..i];
  }

  /** The loop over the list that swaps the names and counts both. */
  method SwapNames(parts: array<DiskPart>, name1: string, name2: string) returns (paired: bool)
    modifies parts
    ensures paired == Pairs(old(parts[..]), name1, name2)
    ensures parts[..] == Swapped(old(parts[..]), name1, name2)
  {
    var ctr1, ctr2 := 0, 0;
    ghost var was := parts[..];
    for i := 0 to parts.Length
      invariant ctr1 == Named(was[..i], name1) && ctr2 == if name1 == name2 then 0 else Named(was[..i], name2)
      invariant forall k :: 0 <= k < parts.Length ==>
                  parts[k] == if k < i then Exchanged(was[k], name1, name2) else was[k]
    {
      NamedNext(was, i, name1);
      NamedNext(was, i, name2);
      if parts[i].name == name1 {
        parts[i] := parts[i].(name := name2);
        ctr1 := ctr1 + 1;
      } else if parts[i].name == name2 {
        parts[i] := parts[i].(name := name1);
        ctr2 := ctr2 + 1;
      }
    }
    assert was[..parts.Length] == was;
    paired := !(ctr1 + ctr2 < 2 || ctr1 != ctr2);
  }

  /** The walk along the list to the partition of that number. */
  method RenamePart(parts: array<DiskPart>, partnum: int, name: string)
    modifies parts
    ensures parts[..] == Renamed(old(parts[..]), partnum, name)
  {
    var i := 1;
    while i <= parts.Length
      invariant 1 <= i <= parts.Length + 1 && parts[..] == old(parts[..])
      invariant partnum < 1 || i <= partnum
    {
      if i == partnum {
        parts[i - 1] := parts[i - 1].(name := name);
        return;
      }
      i := i + 1;
    }
  }

  method ChangeNames(cmd: Command, parts: array<DiskPart>) returns (ret: int)
    modifies parts
    ensures match Changed(cmd, old(parts[..]))
            case Err(code) => ret == code && ret < 0
            case Ok(qs) => ret >= 0 && parts[..] == qs
  {
    match cmd {
      case Swap(name1, name2) =>
        if |name1| > PART_NAME_LEN || |name2| > PART_NAME_LEN {
          return -EINVAL;
        }
        var paired := SwapNames(parts, name1, name2);
        ret := if paired then 0 else -EINVAL;
      case Rename(partnum, name2, info) =>
        if |name2| > PART_NAME_LEN || partnum < 0 || partnum > parts.Length {
          return -EINVAL;
        }
        ret := info;
        if ret >= 0 {
          RenamePart(parts, partnum, name2);
        }
    }
  }

  /** `do_rename_gpt_parts` on the partitions that `get_gpt_info` found, up to the writing of the new table. */
  method DoRenameGptParts(cmd: Command, guid: string, ps: seq<DiskPart>, blksz: nat, env: Env) returns (o: Outcome)
    requires blksz > 0
    ensures o == Effect(cmd, guid, ps, blksz, env)
  {
    var parts := new DiskPart[|ps|](i requires 0 <= i < |ps| => ps[i]);
    assert parts[..] == ps;
    var list := new char[CalcPartsListLen(|ps|)];
    o := WriteAndRead(list, guid, parts[..], blksz, env);
    if !o.Accepted? {
      return;
    }
    var ret := ChangeNames(cmd, parts);
    if ret < 0 {
      return Refused(ret);
    }
    o := WriteAndRead(list, guid, parts[..], blksz, env);
  }

  // ----- what comes of a swap

  lemma {:induction false} NamedSome(ps: seq<DiskPart>, name: string)
    ensures Named(ps, name) >= 1 <==> exists i :: 0 <= i < |ps| && ps[i].name == name
  {
    if ps != [] {
      var n := |ps| - 1;
      NamedSome(ps[..n], name);
      assert forall i :: 0 <= i < n ==> ps[..n][i] == ps[i];
    }
  }

  /** A swap makes an entry longer by `d` for the one name and shorter by it for the other. */
  lemma ExchangedWeighs(p: DiskPart, name1: string, name2: string, d: int)
    requires name1 != name2 && d == |name2| - |name1|
    ensures Weight(Exchanged(p, name1, name2)) == Weight(p) + d * (One(p, name1) - One(p, name2))
  {
  }

  lemma WeighBoth(d: int, x: int, y: int, w: int, w': int, v: int, v': int)
    requires w' == w + d * x && v' == v + d * y
    ensures w' + v' == w + v + d * (x + y)
  {
  }

  lemma {:induction false} SwappedTotal(ps: seq<DiskPart>, w: DiskPart -> nat, name1: string, name2: string,
                                        d: int, k: int)
    requires forall p :: w(Exchanged(p, name1, name2)) == w(p) + d * (One(p, name1) - One(p, name2))
    requires k == Named(ps, name1) - Named(ps, name2)
    ensures Total(Swapped(ps, name1, name2), w) == Total(ps, w) + d * k
  {
    if ps != [] {
      var n := |ps| - 1;
      var y := One(ps[n], name1) - One(ps[n], name2);
      var qs := Swapped(ps, name1, name2);
      SwappedTotal(ps[..n], w, name1, name2, d, k - y);
      assert qs[..n] == Swapped(ps[..n], name1, name2);
      WeighBoth(d, k - y, y, Total(ps[..n], w), Total(qs[..n], w), w(ps[n]), w(qs[n]));
    }
  }

  lemma PairsWeigh(ps: seq<DiskPart>, name1: string, name2: string)
    requires Pairs(ps, name1, name2)
    ensures Weights(Swapped(ps, name1, name2)) == Weights(ps)
  {
    var d := |name2| - |name1|;
    forall p ensures Weight(Exchanged(p, name1, name2)) == Weight(p) + d * (One(p, name1) - One(p, name2)) {
      ExchangedWeighs(p, name1, name2, d);
    }
    SwappedTotal(ps, Weight, name1, name2, d, 0);
  }

  /** Swapping in pairs keeps the length of the text, whatever the lengths of the two names. */
  lemma SwapKeepsRoom(guid: string, ps: seq<DiskPart>, name1: string, name2: string)
    requires Bounded(guid, ps) && Pairs(ps, name1, name2)
    ensures |LayoutText(guid, Swapped(ps, name1, name2))| == |LayoutText(guid, ps)|
  {
    SwapKeepsBounds(guid, ps, name1, name2);
    PairsWeigh(ps, name1, name2);
    SameLength(guid, ps, Swapped(ps, name1, name2));
  }

  lemma SwapKeepsBounds(guid: string, ps: seq<DiskPart>, name1: string, name2: string)
    requires Bounded(guid, ps) && Pairs(ps, name1, name2)
    ensures Bounded(guid, Swapped(ps, name1, name2))
  {
    NamedSome(ps, name1);
    NamedSome(ps, name2);
  }

  lemma SameLength(guid: string, ps: seq<DiskPart>, qs: seq<DiskPart>)
    requires Bounded(guid, ps) && Bounded(guid, qs) && |ps| == |qs| && Weights(ps) == Weights(qs)
    ensures |LayoutText(guid, ps)| == |LayoutText(guid, qs)|
  {
    TextWeighs(guid, ps);
    TextWeighs(guid, qs);
  }

  lemma SwapKeepsNames(ps: seq<DiskPart>, name1: string, name2: string, blksz: nat, env: Env)
    requires AllButName(ps, blksz, env) && Pairs(ps, name1, name2)
    ensures AllButName(Swapped(ps, name1, name2), blksz, env)
    ensures |name1| <= PART_NAME_LEN && |name2| <= PART_NAME_LEN
  {
    NamedSome(ps, name1);
    NamedSome(ps, name2);
  }

  lemma NameLives(ps: seq<DiskPart>, name1: string, name2: string, i: nat) returns (j: nat)
    requires Pairs(ps, name1, name2) && i < |ps|
    ensures j < |ps| && Swapped(ps, name1, name2)[j].name == ps[i].name
  {
    NamedSome(ps, name1);
    NamedSome(ps, name2);
    if ps[i].name == name1 {
      j :| 0 <= j < |ps| && ps[j].name == name2;
    } else if ps[i].name == name2 {
      j :| 0 <= j < |ps| && ps[j].name == name1;
    } else {
      j := i;
    }
  }

  lemma SwapKeepsGood(ps: seq<DiskPart>, name1: string, name2: string)
    requires Pairs(ps, name1, name2)
    ensures GoodNames(ps) <==> GoodNames(Swapped(ps, name1, name2))
  {
    var qs := Swapped(ps, name1, name2);
    if GoodNames(qs) {
      forall i | 0 <= i < |ps| ensures GoodName(ps[i].name) {
        var j := NameLives(ps, name1, name2, i);
      }
    } else {
      NamedSome(ps, name1);
      NamedSome(ps, name2);
    }
  }

  /** A second swap undoes the first. */
  lemma SwapTwice(ps: seq<DiskPart>, name1: string, name2: string)
    ensures Swapped(Swapped(ps, name1, name2), name1, name2) == ps
  {
  }

  /** Where the old text fits and comes back, the new one decides. */
  lemma EffectIs(cmd: Command, guid: string, ps: seq<DiskPart>, qs: seq<DiskPart>, blksz: nat, env: Env)
    requires blksz > 0 && Fits(guid, ps) && ComesBack(guid, ps, blksz, env)
    requires Changed(cmd, ps) == Ok(qs) && |qs| == |ps|
    ensures Effect(cmd, guid, ps, blksz, env) == Accepted(Layout(guid, AllBack(qs), |qs|)) <==>
            Fits(guid, qs) && ComesBack(guid, qs, blksz, env)
  {
  }

  lemma BackOnly(cmd: Command, guid: string, ps: seq<DiskPart>, qs: seq<DiskPart>, blksz: nat, env: Env)
    requires blksz > 0 && Changed(cmd, ps) == Ok(qs) && |qs| == |ps| && !ComesBack(guid, qs, blksz, env)
    ensures Effect(cmd, guid, ps, blksz, env) != Accepted(Layout(guid, AllBack(qs), |qs|))
  {
  }

  lemma NoEffect(cmd: Command, guid: string, ps: seq<DiskPart>, blksz: nat, env: Env)
    requires blksz > 0 && (!Fits(guid, ps) || Changed(cmd, ps).Err?)
    ensures !Effect(cmd, guid, ps, blksz, env).Accepted?
  {
  }

  lemma SwapDecided(name1: string, name2: string, guid: string, ps: seq<DiskPart>, qs: seq<DiskPart>,
                    blksz: nat, env: Env)
    requires Listable(ps) && blksz > 0 && AllButName(ps, blksz, env) && qs == Swapped(ps, name1, name2)
    requires |guid| <= UUID_STR_LEN && Separate(guid) && Plain(env, guid)
    requires Fits(guid, ps) && Pairs(ps, name1, name2)
    ensures Fits(guid, qs) && Changed(Swap(name1, name2), ps) == Ok(qs)
    ensures ComesBack(guid, ps, blksz, env) <==> GoodNames(ps)
    ensures ComesBack(guid, qs, blksz, env) <==> GoodNames(ps)
  {
    FittingComesBackIff(guid, ps, blksz, env);
    SwapKeepsRoom(guid, ps, name1, name2);
    SwapKeepsNames(ps, name1, name2, blksz, env);
    SwapKeepsGood(ps, name1, name2);
    FittingComesBackIff(guid, qs, blksz, env);
  }

  /**
   A swap goes to the disk, with the names exchanged, exactly if the old text fits, the names are paired and
   all names are good. The new text then fits as well.
   */
  lemma SwapIff(name1: string, name2: string, guid: string, ps: seq<DiskPart>, blksz: nat, env: Env)
    requires Listable(ps) && blksz > 0 && AllButName(ps, blksz, env)
    requires |guid| <= UUID_STR_LEN && Separate(guid) && Plain(env, guid)
    ensures var qs := Swapped(ps, name1, name2);
            Effect(Swap(name1, name2), guid, ps, blksz, env) == Accepted(Layout(guid, AllBack(qs), |qs|)) <==>
            Fits(guid, ps) && Pairs(ps, name1, name2) && GoodNames(ps)
  {
    var qs := Swapped(ps, name1, name2);
    if Fits(guid, ps) && Pairs(ps, name1, name2) {
      SwapDecided(name1, name2, guid, ps, qs, blksz, env);
      if GoodNames(ps) {
        EffectIs(Swap(name1, name2), guid, ps, qs, blksz, env);
      } else {
        BackOnly(Swap(name1, name2), guid, ps, qs, blksz, env);
      }
    } else {
      NoEffect(Swap(name1, name2), guid, ps, blksz, env);
    }
  }

  // ----- what comes of a renaming

  lemma {:induction false} RenamedWeighs(ps: seq<DiskPart>, partnum: nat, name: string)
    requires 1 <= partnum <= |ps|
    ensures Weights(Renamed(ps, partnum, name)) == Weights(ps) - |ps[partnum - 1].name| + |name|
  {
    var n := |ps| - 1;
    var qs := Renamed(ps, partnum, name);
    if partnum <= n {
      RenamedWeighs(ps[..n], partnum, name);
      assert qs[..n] == Renamed(ps[..n], partnum, name);
    } else {
      assert qs[..n] == ps[..n];
    }
  }

  /** After a renaming the text fits exactly if the bytes to spare make up for the longer name. */
  lemma RenamedFitsIff(guid: string, ps: seq<DiskPart>, partnum: nat, name: string)
    requires Bounded(guid, ps) && 1 <= partnum <= |ps| && |name| <= PART_NAME_LEN
    ensures Fits(guid, Renamed(ps, partnum, name)) <==>
            |guid| + Weights(ps) - |ps[partnum - 1].name| + |name| <= 37 + 90 * |ps|
  {
    RenamedWeighs(ps, partnum, name);
    FitsIff(guid, Renamed(ps, partnum, name));
  }

  lemma GoodIsGoodButName(p: DiskPart, name: string, blksz: nat, env: Env)
    requires Good(p, blksz, env)
    ensures GoodButName(p, blksz, env)
    ensures |name| <= PART_NAME_LEN && Plain(env, name) && Plain(env, Until(name, ',')) ==>
              GoodButName(p.(name := name), blksz, env)
  {
    CutNone(p.name, ',');
  }

  lemma RenamedButName(ps: seq<DiskPart>, partnum: nat, name: string, blksz: nat, env: Env)
    requires AllGood(ps, blksz, env) && |name| <= PART_NAME_LEN && Plain(env, name) && Plain(env, Until(name, ','))
    ensures AllButName(Renamed(ps, partnum, name), blksz, env)
  {
    forall i | 0 <= i < |ps| ensures GoodButName(Renamed(ps, partnum, name)[i], blksz, env) {
      GoodIsGoodButName(ps[i], name, blksz, env);
    }
  }

  lemma RenamedNames(ps: seq<DiskPart>, partnum: nat, name: string, blksz: nat, env: Env)
    requires AllGood(ps, blksz, env) && 1 <= partnum <= |ps|
    ensures (forall i :: 0 <= i < |ps| ==> GoodName(Renamed(ps, partnum, name)[i].name)) <==> GoodName(name)
  {
    assert Renamed(ps, partnum, name)[partnum - 1].name == name;
  }

  lemma RenamedComesBackIff(partnum: nat, name: string, guid: string, ps: seq<DiskPart>, blksz: nat, env: Env)
    requires Listable(ps) && blksz > 0 && AllGood(ps, blksz, env) && 1 <= partnum <= |ps|
    requires |guid| <= UUID_STR_LEN && Separate(guid) && Plain(env, guid)
    requires |name| <= PART_NAME_LEN && Plain(env, name) && Plain(env, Until(name, ','))
    requires Fits(guid, Renamed(ps, partnum, name))
    ensures ComesBack(guid, Renamed(ps, partnum, name), blksz, env) <==> GoodName(name)
  {
    RenamedButName(ps, partnum, name, blksz, env);
    RenamedNames(ps, partnum, name, blksz, env);
    FittingComesBackIff(guid, Renamed(ps, partnum, name), blksz, env);
  }

  /**
   A renaming goes to the disk exactly if both texts fit and the new name is shorter than its array and
   holds no separator. A name of `PART_NAME_LEN` characters passes the check of the command and is refused
   when the text is read.
   */
  lemma RenameIff(partnum: nat, name: string, info: nat, guid: string, ps: seq<DiskPart>, blksz: nat, env: Env)
    requires Listable(ps) && blksz > 0 && AllGood(ps, blksz, env) && 1 <= partnum <= |ps|
    requires |guid| <= UUID_STR_LEN && Separate(guid) && Plain(env, guid)
    requires Plain(env, name) && Plain(env, Until(name, ','))
    ensures var qs := Renamed(ps, partnum, name);
            Effect(Rename(partnum, name, info), guid, ps, blksz, env) == Accepted(Layout(guid, AllBack(qs), |qs|)) <==>
            Fits(guid, ps) && Fits(guid, qs) && GoodName(name)
  {
    var qs := Renamed(ps, partnum, name);
    if Fits(guid, ps) && |name| <= PART_NAME_LEN {
      FittingComesBack(guid, ps, blksz, env);
      EffectIs(Rename(partnum, name, info), guid, ps, qs, blksz, env);
      if Fits(guid, qs) {
        RenamedComesBackIff(partnum, name, guid, ps, blksz, env);
      }
    } else {
      NoEffect(Rename(partnum, name, info), guid, ps, blksz, env);
    }
  }
}
