/**
 The resumable enumeration of storage devices behind `API_dev_enum`. The caller feeds back the last
 cookie; two flags for each of the five groups remember the rest. Cookies are device addresses, and
 0 is NULL.
 */
module StorageEnum {
  const ENUM_IDE := 0
  const ENUM_MAX := 5

  /** `enum_started` and `enum_ended` of one group. */
  datatype Flags = Flags(started: bool, ended: bool)

  /** The devices `blk_get_dev` knows: a slot holds 0 if there is none. */
  datatype Devices = Devices(slots: seq<seq<nat>>, configured: seq<bool>, inactive: set<nat>, net: nat) {

    /** Every group has slots only if it is configured, and no two slots hold the same device. */
    ghost predicate Valid() {
      && |slots| == |configured| == ENUM_MAX
      && (forall g :: 0 <= g < ENUM_MAX && !configured[g] ==> slots[g] == [])
      && (forall g, i, h, j :: Present(g, i) && Present(h, j) && slots[g][i] == slots[h][j] ==> g == h && i == j)
      && (forall g, i :: Present(g, i) ==> slots[g][i] != net)
    }

    predicate Present(g: int, i: int) {
      0 <= g < |slots| && 0 <= i < |slots[g]| && slots[g][i] != 0
    }

    /** The devices that an enumeration returns from slot `i` of a group on: up to the first inactive one. */
    function Listed(g: nat, i: nat): seq<nat>
      requires g < |slots| && i <= |slots[g]|
      decreases |slots[g]| - i
    {
      if i == |slots[g]| then []
      else if slots[g][i] == 0 then Listed(g, i + 1)
      else if slots[g][i] in inactive then []
      else [slots[g][i]] + Listed(g, i + 1)
    }

    function ListedFrom(g: nat): seq<nat>
      requires |slots| == ENUM_MAX
      decreases ENUM_MAX - g
    {
      if g >= ENUM_MAX then [] else Listed(g, 0) + ListedFrom(g + 1)
    }

    /** What a whole run returns. */
    function All(): seq<nat>
      requires |slots| == ENUM_MAX
    {
      (if net == 0 then [] else [net]) + ListedFrom(ENUM_IDE)
    }

    /** What is still to come after slot `k` of group `g`; `g == -1` is before the first group. */
    function Remaining(g: int, k: int): seq<nat>
      requires |slots| == ENUM_MAX && (g == -1 || Present(g, k))
    {
      if g == -1 then ListedFrom(ENUM_IDE) else Listed(g, k + 1) + ListedFrom(g + 1)
    }

    /** The first occupied slot from `i` on. */
    function NextPresent(g: nat, i: nat): (j: nat)
      requires g < |slots| && i <= |slots[g]|
      ensures i <= j <= |slots[g]|
      ensures forall m :: i <= m < j ==> slots[g][m] == 0
      ensures j < |slots[g]| ==> slots[g][j] != 0
      decreases |slots[g]| - i
    {
      if i == |slots[g]| || slots[g][i] != 0 then i else NextPresent(g, i + 1)
    }

    lemma {:induction false} ListedNext(g: nat, i: nat)
      requires g < |slots| && i <= |slots[g]|
      ensures var j := NextPresent(g, i);
              Listed(g, i) ==
                  if j == |slots[g]| || slots[g][j] in inactive then [] else [slots[g][j]] + Listed(g, j + 1)
      decreases |slots[g]| - i
    {
      if i < |slots[g]| && slots[g][i] == 0 {
        ListedNext(g, i + 1);
        assert NextPresent(g, i) == NextPresent(g, i + 1) && Listed(g, i) == Listed(g, i + 1);
      } else {
        assert NextPresent(g, i) == i;
      }
    }

    /** The head of what a group and its successors still list. */
    lemma RestNext(g: nat, i: nat)
      requires |slots| == ENUM_MAX && g < ENUM_MAX && i <= |slots[g]|
      ensures var j, rest := NextPresent(g, i), Listed(g, i) + ListedFrom(g + 1);
              if j == |slots[g]| || slots[g][j] in inactive then rest == ListedFrom(g + 1)
              else rest == [slots[g][j]] + Remaining(g, j)
    {
      ListedNext(g, i);
      var j := NextPresent(g, i);
      if j < |slots[g]| && slots[g][j] !in inactive {
        var c, tail, later := slots[g][j], Listed(g, j + 1), ListedFrom(g + 1);
        assert ([c] + tail) + later == [c] + (tail + later);
      }
    }
  }

  type Table = d: Devices | d.Valid() witness Devices([[], [], [], [], []], [false, false, false, false, false], {}, 0)

  class Enumerator {
    const dev: Table
    const specs: array<Flags>

    constructor (dev: Table)
      ensures this.dev == dev && specs.Length == ENUM_MAX && fresh(specs)
    {
      this.dev := dev;
      specs := new Flags[ENUM_MAX](_ => Flags(false, false));
    }

    ghost predicate Valid() {
      specs.Length == ENUM_MAX
    }

    /** The cookie is no device of groups `g` and later. */
    ghost predicate Foreign(cookie: nat, g: int)
      requires Valid()
    {
      forall h, i :: g <= h && dev.Present(h, i) ==> dev.slots[h][i] != cookie
    }

    /** Groups `g` and later have not been touched in this run. */
    ghost predicate Untouched(g: int)
      requires Valid()
      reads specs
    {
      forall h :: 0 <= h < ENUM_MAX && g <= h ==> specs[h] == Flags(false, false)
    }

    ghost predicate Started(g: int)
      requires Valid()
      reads specs
    {
      forall h :: 0 <= h < ENUM_MAX && h < g ==> specs[h].started
    }

    /** Between two calls: the last device returned was slot `k` of group `g`. */
    ghost predicate At(g: int, k: int, cookie: nat)
      requires Valid()
      reads specs
    {
      && -1 <= g < ENUM_MAX
      && Started(g) && Untouched(g + 1)
      && if g == -1 then Foreign(cookie, 0)
         else dev.Present(g, k) && dev.slots[g][k] == cookie && specs[g] == Flags(true, false)
    }

    /** Finds the next available device in the storage group. */
    method DevStorGet(g: nat, cookie: nat) returns (found: bool, more: bool, cookie': nat)
      requires Valid() && g < ENUM_MAX
      ensures !dev.configured[g] ==> !found && !more && cookie' == cookie
      ensures dev.configured[g] && Foreign(cookie, g) ==> Got(g, 0, found, more, cookie')
      ensures forall k :: dev.configured[g] && dev.Present(g, k) && dev.slots[g][k] == cookie ==>
                            Got(g, k + 1, found, more, cookie')
    {
      if !dev.configured[g] {
        return false, false, cookie;
      }
      var slots := dev.slots[g];
      var i, foundLast := 0, false;
      if cookie != 0 {
        while i < |slots|
          invariant 0 <= i <= |slots| && !foundLast
          invariant forall m :: 0 <= m < i ==> slots[m] != cookie
        {
          if cookie == slots[i] {
            i := i + 1;
            foundLast := true;
            break;
          }
          i := i + 1;
        }
        if !foundLast {
          i := 0;
        }
      }
      ghost var from := i;
      cookie', found := cookie, false;
      while i < |slots|
        invariant from <= i <= |slots| && !found
        invariant dev.NextPresent(g, i) == dev.NextPresent(g, from)
      {
        cookie' := slots[i];
        if cookie' != 0 {
          found := true;
          break;
        }
        i := i + 1;
      }
      more := i != |slots|;
      if found {
        found := cookie' !in dev.inactive;
      } else {
        cookie' := 0;
      }
      assert forall k :: dev.Present(g, k) && dev.slots[g][k] == cookie ==> k + 1 == from;
    }

    /** What a search of the group from slot `i` on yields. */
    ghost predicate Got(g: nat, i: nat, found: bool, more: bool, cookie': nat)
      requires Valid() && g < ENUM_MAX && i <= |dev.slots[g]|
    {
      var j := dev.NextPresent(g, i);
      && more == (j < |dev.slots[g]|)
      && found == (more && dev.slots[g][j] !in dev.inactive)
      && cookie' == if more then dev.slots[g][j] else 0
    }

    /** The group a device belongs to, or ENUM_MAX. */
    method DevStorType(cookie: nat) returns (t: nat)
      requires Valid() && cookie != 0
      ensures t <= ENUM_MAX
      ensures t < ENUM_MAX ==> exists j :: dev.Present(t, j) && dev.slots[t][j] == cookie
      ensures t == ENUM_MAX ==> Foreign(cookie, 0)
    {
      var i := 0;
      while i < ENUM_MAX
        invariant i <= ENUM_MAX
        invariant forall h, j :: h < i && dev.Present(h, j) ==> dev.slots[h][j] != cookie
      {
        var j := 0;
        while j < |dev.slots[i]|
          invariant j <= |dev.slots[i]|
          invariant forall m :: 0 <= m < j ==> dev.slots[i][m] != cookie
        {
          if cookie == dev.slots[i][j] {
            assert dev.Present(i, j);
            return i;
          }
          j := j + 1;
        }
        i := i + 1;
      }
      return ENUM_MAX;
    }

    /**
     One group's turn. A group before that of the cookie yields nothing; the cookie's own group
     goes on after it; a later group starts from its first slot.
     */
    method DevEnumStor(g: nat, cookie: nat, ghost at: int, ghost k: int) returns (found: bool, cookie': nat)
      requires Valid() && g < ENUM_MAX
      requires at == g ==> dev.Present(g, k) && dev.slots[g][k] == cookie && specs[g] == Flags(true, false)
      requires at > g ==> cookie != 0 && specs[g].started && forall i :: dev.Present(g, i) ==> dev.slots[g][i] != cookie
      requires at < g ==> Foreign(cookie, g) && specs[g] == Flags(false, false)
      modifies specs
      ensures forall h :: 0 <= h < ENUM_MAX && h != g ==> specs[h] == old(specs[h])
      ensures specs[g].started
      ensures at > g ==> !found && cookie' == cookie
      ensures at <= g && !dev.configured[g] ==> !found && cookie' == cookie
      ensures at <= g && dev.configured[g] ==>
                Got(g, if at == g then k + 1 else 0, found, !specs[g].ended, cookie')
    {
      var more;
      if cookie == 0 {
        found, more, cookie' := DevStorGet(g, cookie);
        specs[g] := specs[g].(started := true);
      } else {
        var t := DevStorType(cookie);
        if t == g {
          if specs[g].ended {
            return false, cookie;
          }
          found, more, cookie' := DevStorGet(g, cookie);
        } else {
          if specs[g].ended {
            return false, cookie;
          }
          if !specs[g].started {
            specs[g] := specs[g].(started := true);
            found, more, cookie' := DevStorGet(g, cookie);
          } else {
            found, more, cookie' := false, false, cookie;
          }
        }
      }
      specs[g] := specs[g].(ended := !more);
    }

    method DevEnumReset()
      requires Valid()
      modifies specs
      ensures Untouched(0)
    {
      for i := 0 to ENUM_MAX
        invariant forall h :: 0 <= h < i ==> specs[h] == Flags(false, false)
      {
        specs[i] := Flags(false, false);
      }
    }

    /** The groups before `i` are done with and yielded nothing. */
    ghost predicate Passed(i: nat, cookie: nat)
      requires Valid()
      reads specs
    {
      Started(i) && Untouched(i) && Foreign(cookie, i)
    }

    /** What remains to be listed when it is the turn of group `i`. */
    ghost function RestAt(i: nat, at: int, k: int): seq<nat>
      requires Valid() && (0 <= at && at >= i ==> dev.Present(at, k))
    {
      if at >= i then dev.Remaining(at, k) else dev.ListedFrom(i)
    }

    method Turn(i: nat, cookie: nat, ghost at: int, ghost k: int) returns (found: bool, cookie': nat, ghost k': int)
      requires Valid() && i < ENUM_MAX && (if at >= i then At(at, k, cookie) else Passed(i, cookie))
      modifies specs
      ensures at > i ==> !found && cookie' == cookie && At(at, k, cookie)
      ensures found ==> At(i, k', cookie') && RestAt(i, at, k) == [cookie'] + dev.Remaining(i, k')
      ensures at <= i && !found ==> Passed(i + 1, cookie') && RestAt(i, at, k) == dev.ListedFrom(i + 1)
    {
      found, cookie' := DevEnumStor(i, cookie, at, k);
      ghost var from := if at == i then k + 1 else 0;
      k' := dev.NextPresent(i, from);
      if at <= i {
        dev.RestNext(i, from);
      }
    }

    /** The first device that is still to come, over all groups. */
    method DevEnumStorage(cookie: nat, ghost at: int, ghost k: int)
      returns (found: bool, cookie': nat, ghost at': int, ghost k': int)
      requires Valid() && At(at, k, cookie)
      modifies specs
      ensures found == (dev.Remaining(at, k) != [])
      ensures found ==> && At(at', k', cookie') && at' != -1
                        && dev.Remaining(at, k) == [cookie'] + dev.Remaining(at', k')
    {
      found, cookie', at', k' := false, cookie, at, k;
      var i := 0;
      while i < ENUM_MAX
        invariant i <= ENUM_MAX
        invariant if i <= at then cookie' == cookie && At(at, k, cookie) else Passed(i, cookie')
        invariant RestAt(i, at, k) == dev.Remaining(at, k)
      {
        found, cookie', k' := Turn(i, cookie', at, k);
        if found {
          at' := i;
          return;
        }
        i := i + 1;
      }
    }

    /** Between two calls, with `rest` still to come. */
    ghost predicate Pending(g: int, k: int, cookie: nat, rest: seq<nat>)
      requires Valid()
      reads specs
    {
      At(g, k, cookie) && rest == dev.Remaining(g, k)
    }

    /**
     One call of the API. With a NULL cookie it starts over, whatever the flags; otherwise the cookie
     is the one returned last. The network device comes first, then the storage devices in order.
     */
    method ApiDevEnum(cookie: nat, ghost at: int, ghost k: int, ghost rest: seq<nat>)
      returns (cookie': nat, ghost at': int, ghost k': int, ghost rest': seq<nat>)
      requires Valid() && if cookie == 0 then rest == dev.All() else Pending(at, k, cookie, rest)
      modifies specs
      ensures if rest == [] then cookie' == 0
              else cookie' != 0 && rest == [cookie'] + rest' && Pending(at', k', cookie', rest')
    {
      cookie', at', k', rest' := cookie, at, k, rest;
      if cookie == 0 {
        DevEnumReset();
        at', k', rest' := -1, 0, dev.Remaining(-1, 0);
        if dev.net != 0 {
          cookie' := dev.net;
          return;
        }
        assert dev.All() == rest';
      }
      var found;
      found, cookie', at', k' := DevEnumStorage(cookie', at', k');
      if found {
        rest' := dev.Remaining(at', k');
      } else {
        cookie' := 0;
      }
    }

    /**
     A whole run of the client, started with NULL and fed with each cookie it returns, whatever an earlier
     run left behind: it ends, and it returns exactly the devices of `All` in that order, as many as its
     array has room for.
     */
    method Enumerate(ubMaxDev: nat) returns (found: seq<nat>)
      requires Valid() && ubMaxDev > 0
      modifies specs
      ensures found <= dev.All() && |found| == if |dev.All()| < ubMaxDev then |dev.All()| else ubMaxDev
    {
      ghost var all := dev.All();
      found := [];
      var cookie;
      ghost var at, k, rest;
      cookie, at, k, rest := ApiDevEnum(0, -1, 0, all);
      while cookie != 0
        invariant cookie == 0 ==> found == all
        invariant cookie != 0 ==> Pending(at, k, cookie, rest) && Progress(all, found, cookie, rest)
        invariant |found| <= ubMaxDev && (cookie != 0 ==> |found| < ubMaxDev)
        decreases if cookie == 0 then 0 else 1 + |rest|
      {
        ghost var rest0, cookie0 := rest, cookie;
        found := found + [cookie];
        if |found| >= ubMaxDev {
          return;
        }
        cookie, at, k, rest := ApiDevEnum(cookie, at, k, rest);
        ProgressNext(all, found, cookie0, rest0, cookie, rest);
      }
    }
  }

  /** A run that has returned `found` and then `cookie`, with `rest` to come. */
  predicate Progress(all: seq<nat>, found: seq<nat>, cookie: nat, rest: seq<nat>) {
    all == found + [cookie] + rest
  }

  lemma ProgressNext(all: seq<nat>, found: seq<nat>, cookie: nat, rest: seq<nat>, cookie': nat, rest': seq<nat>)
    requires found != [] && found[|found| - 1] == cookie && Progress(all, found[..|found| - 1], cookie, rest)
    ensures rest == [] ==> all == found
    ensures rest == [cookie'] + rest' ==> Progress(all, found, cookie', rest')
  {
    assert found[..|found| - 1] + [cookie] == found;
  }

  // ----- what `All` contains

  /** A device is listed exactly if it is present and no inactive device of its group precedes it or is it. */
  lemma {:induction false} ListedExactly(dev: Devices, g: nat, from: nat, x: nat)
    requires g < |dev.slots| && from <= |dev.slots[g]|
    ensures x in dev.Listed(g, from) <==>
            exists i :: from <= i < |dev.slots[g]| && dev.slots[g][i] == x != 0
                        && forall j :: from <= j <= i && dev.slots[g][j] != 0 ==> dev.slots[g][j] !in dev.inactive
    decreases |dev.slots[g]| - from
  {
    if from < |dev.slots[g]| {
      ListedExactly(dev, g, from + 1, x);
    }
  }

  lemma {:induction false} ListedDistinct(dev: Table, g: nat, from: nat)
    requires g < ENUM_MAX && from <= |dev.slots[g]|
    ensures Distinct(dev.Listed(g, from))
    decreases |dev.slots[g]| - from
  {
    if from < |dev.slots[g]| {
      ListedDistinct(dev, g, from + 1);
      ListedExactly(dev, g, from + 1, dev.slots[g][from]);
      assert dev.slots[g][from] != 0 ==> dev.Present(g, from);
      assert forall i :: 0 <= i < |dev.slots[g]| && dev.slots[g][i] != 0 ==> dev.Present(g, i);
    }
  }

  predicate Distinct(s: seq<nat>) {
    forall i, j :: 0 <= i < j < |s| ==> s[i] != s[j]
  }

  /** The members of the later groups are present devices of those groups. */
  lemma {:induction false} ListedFromPresent(dev: Devices, g: nat, x: nat)
    requires |dev.slots| == ENUM_MAX && x in dev.ListedFrom(g)
    ensures exists h, i :: g <= h && dev.Present(h, i) && dev.slots[h][i] == x
    decreases ENUM_MAX - g
  {
    if x in dev.Listed(g, 0) {
      ListedExactly(dev, g, 0, x);
      var i :| 0 <= i < |dev.slots[g]| && dev.slots[g][i] == x != 0;
      assert dev.Present(g, i);
    } else {
      ListedFromPresent(dev, g + 1, x);
    }
  }

  lemma ConcatDistinct(a: seq<nat>, b: seq<nat>)
    requires Distinct(a) && Distinct(b) && forall x :: x in a ==> x !in b
    ensures Distinct(a + b)
  {
    forall i, j | 0 <= i < j < |a + b| ensures (a + b)[i] != (a + b)[j] {
      if i < |a| && j >= |a| {
        assert a[i] in a && b[j - |a|] in b;
      }
    }
  }

  lemma {:induction false} ListedFromDistinct(dev: Table, g: nat)
    ensures Distinct(dev.ListedFrom(g))
    decreases ENUM_MAX - g
  {
    if g < ENUM_MAX {
      ListedDistinct(dev, g, 0);
      ListedFromDistinct(dev, g + 1);
      forall x | x in dev.Listed(g, 0) ensures x !in dev.ListedFrom(g + 1) {
        ListedExactly(dev, g, 0, x);
        var i :| 0 <= i < |dev.slots[g]| && dev.slots[g][i] == x != 0;
        assert dev.Present(g, i);
        if x in dev.ListedFrom(g + 1) {
          ListedFromPresent(dev, g + 1, x);
        }
      }
      ConcatDistinct(dev.Listed(g, 0), dev.ListedFrom(g + 1));
    }
  }

  /** No device is returned twice in a run. */
  lemma AllDistinct(dev: Table)
    ensures Distinct(dev.All())
  {
    ListedFromDistinct(dev, 0);
    if dev.net != 0 && dev.net in dev.ListedFrom(ENUM_IDE) {
      ListedFromPresent(dev, 0, dev.net);
      assert false;
    }
    ConcatDistinct(if dev.net == 0 then [] else [dev.net], dev.ListedFrom(ENUM_IDE));
  }

  // ----- all groups together, and the order

  /** The slot is occupied, and no occupied slot of its group up to it holds an inactive device. */
  predicate Reached(dev: Devices, g: int, i: int) {
    dev.Present(g, i) && forall j :: 0 <= j <= i && dev.slots[g][j] != 0 ==> dev.slots[g][j] !in dev.inactive
  }

  lemma ListedReached(dev: Devices, g: nat, i: nat)
    requires g < |dev.slots| && Reached(dev, g, i)
    ensures dev.slots[g][i] in dev.Listed(g, 0)
  {
    ListedExactly(dev, g, 0, dev.slots[g][i]);
  }

  lemma {:induction false} ListedFromExactly(dev: Devices, g: nat, x: nat)
    requires |dev.slots| == ENUM_MAX
    ensures x in dev.ListedFrom(g) <==> exists h, i :: g <= h && Reached(dev, h, i) && dev.slots[h][i] == x
    decreases ENUM_MAX - g
  {
    if g < ENUM_MAX {
      ListedFromExactly(dev, g + 1, x);
      if x in dev.Listed(g, 0) {
        ListedExactly(dev, g, 0, x);
        var i :| 0 <= i < |dev.slots[g]| && dev.slots[g][i] == x != 0
                 && forall j :: 0 <= j <= i && dev.slots[g][j] != 0 ==> dev.slots[g][j] !in dev.inactive;
        assert Reached(dev, g, i);
      }
      if h, i :| g <= h && Reached(dev, h, i) && dev.slots[h][i] == x {
        if h == g {
          ListedReached(dev, g, i);
        }
      }
    }
  }

  /** A run returns the network device, if there is one, and exactly the devices of reached slots of all groups. */
  lemma AllExactly(dev: Devices, x: nat)
    requires |dev.slots| == ENUM_MAX
    ensures x in dev.All() <==>
            (x == dev.net != 0) || exists g, i :: Reached(dev, g, i) && dev.slots[g][i] == x
  {
    ListedFromExactly(dev, ENUM_IDE, x);
    assert forall g, i :: Reached(dev, g, i) ==> dev.Present(g, i);
  }

  /** `x` stands before `y`. */
  ghost predicate Precedes(s: seq<nat>, x: nat, y: nat) {
    exists a, b :: 0 <= a < b < |s| && s[a] == x && s[b] == y
  }

  lemma PrecedesWithin(s: seq<nat>, t: seq<nat>, x: nat, y: nat)
    ensures Precedes(s, x, y) ==> Precedes(s + t, x, y)
    ensures Precedes(t, x, y) ==> Precedes(s + t, x, y)
    ensures x in s && y in t ==> Precedes(s + t, x, y)
  {
    if a, b :| 0 <= a < b < |s| && s[a] == x && s[b] == y {
      assert (s + t)[a] == x && (s + t)[b] == y;
    }
    if a, b :| 0 <= a < b < |t| && t[a] == x && t[b] == y {
      assert (s + t)[|s| + a] == x && (s + t)[|s| + b] == y;
    }
    if x in s && y in t {
      var a :| 0 <= a < |s| && s[a] == x;
      var b :| 0 <= b < |t| && t[b] == y;
      assert (s + t)[a] == x && (s + t)[|s| + b] == y;
    }
  }

  lemma {:induction false} ListedOrder(dev: Devices, g: nat, from: nat, i: nat, j: nat)
    requires g < |dev.slots| && Reached(dev, g, i) && Reached(dev, g, j) && from <= i < j
    ensures Precedes(dev.Listed(g, from), dev.slots[g][i], dev.slots[g][j])
    decreases i - from
  {
    var s, x, y := dev.slots[g], dev.slots[g][i], dev.slots[g][j];
    if from == i {
      ListedExactly(dev, g, from + 1, y);
      assert y in dev.Listed(g, from + 1);
      PrecedesWithin([x], dev.Listed(g, from + 1), x, y);
    } else {
      ListedOrder(dev, g, from + 1, i, j);
      PrecedesWithin([s[from]], dev.Listed(g, from + 1), x, y);
    }
  }

  /** Slots in the order of groups, and within a group in the order of slots. */
  predicate Earlier(g: int, i: int, h: int, j: int) {
    g < h || (g == h && i < j)
  }

  lemma {:induction false} ListedFromOrder(dev: Devices, from: nat, g: int, i: int, h: int, j: int)
    requires |dev.slots| == ENUM_MAX && Reached(dev, g, i) && Reached(dev, h, j)
    requires from <= g && Earlier(g, i, h, j)
    ensures Precedes(dev.ListedFrom(from), dev.slots[g][i], dev.slots[h][j])
    decreases g - from
  {
    var x, y := dev.slots[g][i], dev.slots[h][j];
    if from < g {
      ListedFromOrder(dev, from + 1, g, i, h, j);
    } else if g == h {
      ListedOrder(dev, g, 0, i, j);
    } else {
      ListedReached(dev, g, i);
      ListedFromExactly(dev, from + 1, y);
    }
    PrecedesWithin(dev.Listed(from, 0), dev.ListedFrom(from + 1), x, y);
  }

  /** Devices are returned in the order of their slots, behind the network device. */
  lemma AllOrder(dev: Devices, g: int, i: int, h: int, j: int)
    requires |dev.slots| == ENUM_MAX && Reached(dev, g, i) && Reached(dev, h, j) && Earlier(g, i, h, j)
    ensures Precedes(dev.All(), dev.slots[g][i], dev.slots[h][j])
    ensures dev.net != 0 ==> dev.All()[0] == dev.net && Precedes(dev.All(), dev.net, dev.slots[g][i])
  {
    var net := if dev.net == 0 then [] else [dev.net];
    var x, y := dev.slots[g][i], dev.slots[h][j];
    ListedFromOrder(dev, ENUM_IDE, g, i, h, j);
    PrecedesWithin(net, dev.ListedFrom(ENUM_IDE), x, y);
    ListedFromExactly(dev, ENUM_IDE, x);
    PrecedesWithin(net, dev.ListedFrom(ENUM_IDE), dev.net, x);
  }
}
