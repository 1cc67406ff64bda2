/**
 Loading what was saved: exactly for ranges whose last record starts below 2^32 does it put the bytes back.
 */
module SRecordRoundTrip {
  import opened Arithmetic
  import opened Octets
  import opened SRecord
  import opened SRecordIO
  import opened SRecordLoad

  // ----- reading the lines

  /** Each line followed by its end. */
  function Concat(lines: seq<string>): string {
    if lines == [] then "" else lines[0] + "\n" + Concat(lines[1..])
  }

  predicate At(input: string, p: nat, text: string) {
    p + |text| <= |input| && input[p..p + |text|] == text
  }

  lemma AtSplit(input: string, p: nat, x: string, y: string)
    requires At(input, p, x + y)
    ensures At(input, p, x) && At(input, p + |x|, y)
  {
    var t := input[p..p + |x + y|];
    assert t[..|x|] == x && t[|x|..] == y;
    assert input[p..p + |x|] == t[..|x|];
    assert input[p + |x|..p + |x| + |y|] == t[|x|..];
  }

  predicate Short(line: string) {
    Plain(line) && |line| < SREC_MAXRECLEN
  }

  predicate AllShort(lines: seq<string>) {
    forall i :: 0 <= i < |lines| ==> Short(lines[i])
  }

  lemma FirstLine(input: string, p: nat, line: string)
    requires Short(line) && At(input, p, line) && At(input, p + |line|, "\n")
    ensures ReadRecord(input, p, "") == Got(line, p + |line| + 1)
  {
    assert input[p + |line|] == input[p + |line|..p + |line| + 1][0];
    PlainLineReads(input, p, "", line);
    assert "" + line == line;
  }

  lemma LineThenRest(input: string, p: nat, line: string, rest: string)
    requires At(input, p, line + "\n" + rest) && Short(line)
    ensures ReadRecord(input, p, "") == Got(line, p + |line| + 1) && At(input, p + |line| + 1, rest)
  {
    assert line + "\n" + rest == line + ("\n" + rest);
    AtSplit(input, p, line, "\n" + rest);
    AtSplit(input, p + |line|, "\n", rest);
    FirstLine(input, p, line);
  }

  lemma LinesCons(input: string, p: nat, line: string, next: nat, rest: seq<string>)
    requires p <= |input| && ReadRecord(input, p, "") == Got(line, next) && next <= |input|
    requires Lines(input, next) == Script(rest, false)
    ensures Lines(input, p) == Script([line] + rest, false)
  {
  }

  /** Short plain lines are read one by one, and then the line is quiet. */
  lemma {:induction false} ConcatLines(input: string, p: nat, lines: seq<string>)
    requires AllShort(lines) && At(input, p, Concat(lines)) && p + |Concat(lines)| == |input|
    ensures Lines(input, p) == Script(lines, false)
    decreases |lines|
  {
    if lines != [] {
      var l, rest := lines[0], lines[1..];
      LineThenRest(input, p, l, Concat(rest));
      ConcatLines(input, p + |l| + 1, rest);
      LinesCons(input, p, l, p + |l| + 1, rest);
      assert lines == [l] + rest;
    }
  }

  // ----- header and trailer

  lemma HeaderReads()
    ensures AfterS(HEADER, TEXT_START) == 1 && Hex2Bin(HEADER, 2) == 3
    ensures ReadBytes(HEADER, 4, 3) == [0, 0, 0xFC]
  {
    var s := HEADER;
    assert Hex2Bin(s, 4) == 0 && Hex2Bin(s, 6) == 0 && Hex2Bin(s, 8) == 0xFC;
    ReadBytesExact(s, 4, [0, 0, 0xFC]);
  }

  lemma HeaderHandled(offset: int, st: Load)
    ensures Handle(HEADER, offset, st) == Continue(st)
  {
    HeaderReads();
    SumThree([0, 0, 0xFC]);
  }

  lemma TrailerReads()
    ensures AfterS(TRAILER, TEXT_START) == 1 && Hex2Bin(TRAILER, 2) == 5
    ensures ReadBytes(TRAILER, 4, 5) == [0, 0, 0, 0, 0xFA]
  {
    var s := TRAILER;
    assert Hex2Bin(s, 4) == 0 && Hex2Bin(s, 6) == 0 && Hex2Bin(s, 8) == 0;
    assert Hex2Bin(s, 10) == 0 && Hex2Bin(s, 12) == 0xFA;
    ReadBytesExact(s, 4, [0, 0, 0, 0, 0xFA]);
  }

  lemma TrailerBody(body: seq<byte>)
    requires body == [0, 0, 0, 0, 0xFA]
    ensures Sum(body) == 0xFA && Value(body[..4]) == 0
  {
    assert body == [0, 0, 0, 0] + [0xFA];
    SumAppend([0, 0, 0, 0], [0xFA]);
    SumOne(0xFA);
    SumFour([0, 0, 0, 0]);
    assert body[..4] == BigEndian(0);
    AddressValue(0);
  }

  lemma TrailerHandled(offset: int, st: Load)
    ensures Handle(TRAILER, offset, st) == Stop(Loaded(st, 0))
  {
    TrailerReads();
    TrailerBody([0, 0, 0, 0, 0xFA]);
  }

  // ----- the lines of a save

  /** What `save_serial` wrote: header, data lines, trailer. */
  ghost predicate IsSaved(out: seq<string>, mem: nat -> byte, address: nat, count: nat) {
    && |out| >= 2 && out[0] == HEADER && out[|out| - 1] == TRAILER
    && Rendered(out[1..|out| - 1], Chunks(mem, address, count))
  }

  /** Where the last record starts. */
  function LastRecord(address: nat, count: nat): nat
    requires count > 0
  {
    address + (count - 1) / 16 * 16
  }

  predicate UpTo(recs: seq<Rec>, last: nat) {
    forall i :: 0 <= i < |recs| ==> recs[i].a <= last
  }

  lemma LastRecordNext(a: nat, n: nat)
    requires n > 16
    ensures LastRecord(a, n) == LastRecord(a + 16, n - 16) && LastRecord(a, n) >= a + 16
  {
    assert (n - 17) / 16 == (n - 1) / 16 - 1;
  }

  /** The records start at or before the last one, which is there. */
  lemma {:induction false} ChunksUpTo(mem: nat -> byte, a: nat, n: nat)
    requires n > 0
    ensures var recs := Chunks(mem, a, n);
            UpTo(recs, LastRecord(a, n)) && recs != [] && recs[|recs| - 1].a == LastRecord(a, n)
    decreases n
  {
    if n > 16 {
      LastRecordNext(a, n);
      ChunksUpTo(mem, a + 16, n - 16);
      assert Chunks(mem, a, n) == [Rec(a, Bytes(mem, a, 16))] + Chunks(mem, a + 16, n - 16);
    } else {
      assert Chunks(mem, a, n) == [Rec(a, Bytes(mem, a, n))] + Chunks(mem, a + n, 0);
    }
  }

  lemma LineShort(a: nat, data: seq<byte>)
    requires a < TWO64 && |data| <= 16
    ensures Short(Line(a, data))
  {
    LinePlain(a, data);
    WidthIs(a);
  }

  lemma DataShort(lines: seq<string>, recs: seq<Rec>)
    requires Rendered(lines, recs) && UpTo(recs, TWO64 - 1)
    ensures AllShort(lines)
  {
    forall i | 0 <= i < |lines| ensures Short(lines[i]) {
      var line := lines[i];
      LineShort(recs[i].a, recs[i].data);
    }
  }

  lemma ChunksInRange(mem: nat -> byte, a: nat, n: nat)
    requires a + n <= TWO64
    ensures UpTo(Chunks(mem, a, n), TWO64 - 1)
  {
    if n > 0 {
      ChunksUpTo(mem, a, n);
      assert (n - 1) / 16 * 16 <= n - 1;
    }
  }

  lemma EdgesShort()
    ensures Short(HEADER) && Short(TRAILER)
  {
  }

  lemma SavedLinesShort(out: seq<string>, mem: nat -> byte, address: nat, count: nat)
    requires IsSaved(out, mem, address, count) && address + count <= TWO64
    ensures AllShort(out)
  {
    var lines := out[1..|out| - 1];
    ChunksInRange(mem, address, count);
    DataShort(lines, Chunks(mem, address, count));
    EdgesShort();
    forall i | 0 <= i < |out| ensures Short(out[i]) {
      if 0 < i < |out| - 1 {
        assert out[i] == lines[i - 1];
      }
    }
  }

  /** The lines read back are the lines written, at every address. */
  lemma SavedScript(out: seq<string>, mem: nat -> byte, address: nat, count: nat)
    requires IsSaved(out, mem, address, count) && address + count <= TWO64
    ensures Lines(Concat(out), STREAM_START) == Script(out, false)
  {
    SavedLinesShort(out, mem, address, count);
    ConcatLines(Concat(out), STREAM_START, out);
  }

  // ----- storing the records

  function StoreAll(st: Load, recs: seq<Rec>, offset: int): Load
    decreases recs
  {
    if recs == [] then st else StoreAll(Store(st, recs[0].a, recs[0].data, offset), recs[1..], offset)
  }

  lemma DataHandled(line: string, rec: Rec, offset: int, st: Load)
    requires |rec.data| <= 16 && line == Line(rec.a, rec.data) && rec.a < TWO32
    ensures Handle(line, offset, st) == Continue(Store(st, rec.a, rec.data, offset))
  {
    LineDecodes(rec.a, rec.data);
  }

  /** The handler stores the records for the lines. */
  ghost predicate Stores(h: Handler, lines: seq<string>, recs: seq<Rec>, offset: int) {
    && |lines| == |recs|
    && forall i, st {:trigger h(lines[i], st)} :: 0 <= i < |lines| ==>
         h(lines[i], st) == Continue(Store(st, recs[i].a, recs[i].data, offset))
  }

  lemma DataStores(lines: seq<string>, recs: seq<Rec>, offset: int)
    requires Rendered(lines, recs) && UpTo(recs, TWO32 - 1)
    ensures Stores(Handling(offset), lines, recs, offset)
  {
    forall i, st | 0 <= i < |lines|
      ensures Handling(offset)(lines[i], st) == Continue(Store(st, recs[i].a, recs[i].data, offset))
    {
      var line := lines[i];
      DataHandled(line, recs[i], offset, st);
    }
  }

  /** A run of data lines stores its records. */
  lemma {:induction false} DataProcessed(h: Handler, lines: seq<string>, recs: seq<Rec>, tail: seq<string>,
                           offset: int, st: Load)
    requires Stores(h, lines, recs, offset)
    ensures Process(Script(lines + tail, false), h, st) == Process(Script(tail, false), h, StoreAll(st, recs, offset))
    decreases |lines|
  {
    if lines == [] {
      assert lines + tail == tail;
    } else {
      var all := lines + tail;
      assert all[0] == lines[0] && all[1..] == lines[1..] + tail;
      assert h(lines[0], st) == Continue(Store(st, recs[0].a, recs[0].data, offset));
      StoresTail(h, lines, recs, offset);
      DataProcessed(h, lines[1..], recs[1..], tail, offset, Store(st, recs[0].a, recs[0].data, offset));
    }
  }

  lemma StoresTail(h: Handler, lines: seq<string>, recs: seq<Rec>, offset: int)
    requires lines != [] && Stores(h, lines, recs, offset)
    ensures Stores(h, lines[1..], recs[1..], offset)
  {
    forall i, st | 0 <= i < |lines[1..]|
      ensures h(lines[1..][i], st) == Continue(Store(st, recs[1..][i].a, recs[1..][i].data, offset))
    {
      assert lines[1..][i] == lines[i + 1] && recs[1..][i] == recs[i + 1];
      assert h(lines[i + 1], st) == Continue(Store(st, recs[i + 1].a, recs[i + 1].data, offset));
    }
  }

  lemma BytesSplit(mem: nat -> byte, a: nat, k: nat, n: nat)
    requires k <= n
    ensures Bytes(mem, a, n) == Bytes(mem, a, k) + Bytes(mem, a + k, n - k)
  {
  }

  /** The effect of bytes stored from `at` on. */
  function Stored(st: Load, at: nat, bs: seq<byte>): Load {
    if bs == [] then st
    else Load(Put(st.mem, at, bs), if at < st.startAddr then at else st.startAddr,
              if at + |bs| - 1 > st.endAddr then at + |bs| - 1 else st.endAddr)
  }

  lemma StoredTwice(st: Load, at: nat, x: seq<byte>, y: seq<byte>)
    requires x != []
    ensures Stored(Stored(st, at, x), at + |x|, y) == Stored(st, at, x + y)
  {
    PutAppend(st.mem, at, x, y);
    assert y == [] ==> x + y == x;
  }

  lemma StoreIsStored(st: Load, addr: nat, data: seq<byte>, offset: int)
    requires data != [] && 0 <= addr + offset && addr + offset + |data| <= TWO64
    ensures Store(st, addr, data, offset) == Stored(st, addr + offset, data)
  {
  }

  /** The records of a memory range store that range. */
  lemma {:induction false} ChunksStored(mem: nat -> byte, a: nat, n: nat, offset: int, st: Load)
    requires 0 <= a + offset && a + offset + n <= TWO64
    ensures StoreAll(st, Chunks(mem, a, n), offset) == Stored(st, a + offset, Bytes(mem, a, n))
    decreases n
  {
    if n > 0 {
      var k := RecordLen(n);
      var first, rest := Bytes(mem, a, k), Chunks(mem, a + k, n - k);
      assert Chunks(mem, a, n)[1..] == rest;
      StoreIsStored(st, a, first, offset);
      ChunksStored(mem, a + k, n - k, offset, Stored(st, a + offset, first));
      StoredTwice(st, a + offset, first, Bytes(mem, a + k, n - k));
      BytesSplit(mem, a, k, n);
    }
  }

  /** What header and trailer do. */
  ghost predicate Frames(h: Handler) {
    forall st {:trigger h(HEADER, st)} {:trigger h(TRAILER, st)} ::
        h(HEADER, st) == Continue(st) && h(TRAILER, st) == Stop(Loaded(st, 0))
  }

  lemma HandlingFrames(offset: int)
    ensures Frames(Handling(offset))
  {
    forall st ensures Handling(offset)(HEADER, st) == Continue(st) &&
        Handling(offset)(TRAILER, st) == Stop(Loaded(st, 0)) {
      HeaderHandled(offset, st);
      TrailerHandled(offset, st);
    }
  }

  lemma ScriptProcessed(h: Handler, out: seq<string>, recs: seq<Rec>, offset: int, st: Load)
    requires |out| >= 2 && out[0] == HEADER && out[|out| - 1] == TRAILER
    requires Frames(h) && Stores(h, out[1..|out| - 1], recs, offset)
    ensures Process(Script(out, false), h, st) == Loaded(StoreAll(st, recs, offset), 0)
  {
    var lines, end := out[1..|out| - 1], StoreAll(st, recs, offset);
    assert out[1..] == lines + [TRAILER];
    assert h(HEADER, st) == Continue(st) && h(TRAILER, end) == Stop(Loaded(end, 0));
    DataProcessed(h, lines, recs, [TRAILER], offset, st);
  }

  /** `m` is `mem0` with `count` bytes of `mem` from `address` on, moved by `offset`. */
  ghost predicate Copied(m: map<nat, byte>, mem0: map<nat, byte>, mem: nat -> byte,
                         address: nat, count: nat, offset: int) {
    forall k: nat ::
      if address + offset <= k < address + offset + count then k in m && m[k] == mem(k - offset)
      else (k in m <==> k in mem0) && (k in m ==> m[k] == mem0[k])
  }

  lemma PutCopies(mem0: map<nat, byte>, mem: nat -> byte, address: nat, count: nat, offset: int)
    requires 0 <= address + offset
    ensures Copied(Put(mem0, address + offset, Bytes(mem, address, count)), mem0, mem, address, count, offset)
  {
    var at, bs := address + offset, Bytes(mem, address, count);
    forall k: nat
      ensures if at <= k < at + count then k in Put(mem0, at, bs) && Put(mem0, at, bs)[k] == mem(k - offset)
              else (k in Put(mem0, at, bs) <==> k in mem0) && (k in mem0 ==> Put(mem0, at, bs)[k] == mem0[k])
    {
      PutExactly(mem0, at, bs, k);
    }
  }

  lemma StoredSize(mem0: map<nat, byte>, at: nat, bs: seq<byte>)
    requires at + |bs| <= TWO64 && |bs| < TWO64
    ensures Size(Stored(Load(mem0, TWO64 - 1, 0), at, bs)) == if bs == [] then 2 else |bs|
  {
  }

  // ----- the round trip

  /**
   What loading on top of `mem0` should end with: entry 0, the bytes at `address + offset`, every other
   address as it was, and the count as the size. Nothing at all is reported as two bytes.
   */
  ghost predicate PutBack(o: Outcome, mem: nat -> byte, address: nat, count: nat, offset: int, mem0: map<nat, byte>) {
    && o.Loaded? && o.entry == 0
    && Size(o.st) == (if count > 0 then count else 2)
    && Copied(o.st.mem, mem0, mem, address, count, offset)
  }

  ghost predicate LoadsBack(out: seq<string>, mem: nat -> byte, address: nat, count: nat, offset: int,
                            mem0: map<nat, byte>) {
    PutBack(Process(Lines(Concat(out), STREAM_START), Handling(offset), Load(mem0, TWO64 - 1, 0)),
            mem, address, count, offset, mem0)
  }

  lemma SavedProcessed(out: seq<string>, mem: nat -> byte, address: nat, count: nat, offset: int, st: Load)
    requires IsSaved(out, mem, address, count)
    requires 0 <= address + offset && address + offset + count <= TWO64
    requires count == 0 || LastRecord(address, count) < TWO32
    ensures Process(Script(out, false), Handling(offset), st)
            == Loaded(Stored(st, address + offset, Bytes(mem, address, count)), 0)
  {
    if count > 0 {
      ChunksUpTo(mem, address, count);
    }
    var recs := Chunks(mem, address, count);
    HandlingFrames(offset);
    DataStores(out[1..|out| - 1], recs, offset);
    ScriptProcessed(Handling(offset), out, recs, offset, st);
    ChunksStored(mem, address, count, offset, st);
  }

  lemma StoredBack(o: Outcome, mem: nat -> byte, address: nat, count: nat, offset: int, mem0: map<nat, byte>)
    requires 0 <= address + offset && address + offset + count <= TWO64 && count < TWO64
    requires o == Loaded(Stored(Load(mem0, TWO64 - 1, 0), address + offset, Bytes(mem, address, count)), 0)
    ensures PutBack(o, mem, address, count, offset, mem0)
  {
    StoredSize(mem0, address + offset, Bytes(mem, address, count));
    PutCopies(mem0, mem, address, count, offset);
  }

  lemma SavedLoads(out: seq<string>, mem: nat -> byte, address: nat, count: nat, offset: int, mem0: map<nat, byte>)
    requires IsSaved(out, mem, address, count) && address + count <= TWO64 && count < TWO64
    requires 0 <= address + offset && address + offset + count <= TWO64
    requires count == 0 || LastRecord(address, count) < TWO32
    ensures LoadsBack(out, mem, address, count, offset, mem0)
  {
    var st := Load(mem0, TWO64 - 1, 0);
    SavedScript(out, mem, address, count);
    SavedProcessed(out, mem, address, count, offset, st);
    StoredBack(Process(Script(out, false), Handling(offset), st), mem, address, count, offset, mem0);
  }
}
