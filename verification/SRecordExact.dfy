/**
 From 2^32 on a record prints more address digits than the loader reads, and its bytes land elsewhere:
 the condition of the round trip is exact.
 */
module SRecordExact {
  import opened Arithmetic
  import opened Octets
  import opened SRecord
  import opened SRecordIO
  import opened SRecordLoad
  import opened SRecordRoundTrip

  // ----- what the loader makes of a long address

  lemma NineWidth(a: nat)
    requires TWO32 <= a < TWO32 + 16
    ensures Width(a) == 9
  {
    CText.HexLength(a, 8);
    CText.HexLength(a, 9);
    CText.PowBounds();
    assert CText.Pow16(9) == 16 * CText.Pow16(8);
  }

  lemma PadDrop(v: nat, n: nat)
    ensures CText.HexPad(v, n + 1, true)[..n] == CText.HexPad(v / 16, n, true)
  {
  }

  lemma NineDigits(a: nat)
    requires TWO32 <= a < TWO32 + 16
    ensures AddressText(a)[..8] == HexAll(BigEndian(a / 16))
  {
    NineWidth(a);
    PadDrop(a, 8);
    PadWord(a / 16);
  }

  lemma TextReads(s: string, t: string, b: seq<byte>, i: nat)
    requires |b| == 4 && |s| >= 12 && |t| >= 8 && s[4..12] == t[..8] == HexAll(b) && i < 4
    ensures Hex2Bin(s, 4 + 2 * i) == b[i]
  {
    HexAllReads(b, s, 4, i);
  }

  lemma AddressAt(a: nat, data: seq<byte>)
    requires |data| <= 250
    ensures Line(a, data)[4..12] == AddressText(a)[..8]
  {
  }

  lemma CutReads(a: nat, data: seq<byte>)
    requires TWO32 <= a < TWO32 + 16 && |data| <= 16
    ensures Starts(Line(a, data), BigEndian(a / 16))
  {
    var s, b := Line(a, data), BigEndian(a / 16);
    NineDigits(a);
    AddressAt(a, data);
    forall i | 0 <= i < 4 ensures Hex2Bin(s, 4 + 2 * i) == b[i] {
      TextReads(s, AddressText(a), b, i);
    }
  }

  /** The four bytes behind the length read as `b`. */
  predicate Starts(s: string, b: seq<byte>)
    requires |b| == 4
  {
    forall i :: 0 <= i < 4 ==> Hex2Bin(s, 4 + 2 * i) == b[i]
  }

  lemma LineStart(a: nat, data: seq<byte>)
    requires |data| <= 250
    ensures var s := Line(a, data);
            s[0] == 'S' && s[1] == '3' && AfterS(s, TEXT_START) == 1 && Hex2Bin(s, 2) == |data| + 5
  {
    var s := Line(a, data);
    Hex2Reads(|data| + 5, s, 2);
    assert AfterS(s, TEXT_START) == 1;
  }

  lemma HeadRead(s: string, n: nat, b: seq<byte>)
    requires |b| == 4 && |ReadBytes(s, 4, n)| >= 4 && Starts(s, b)
    ensures ReadBytes(s, 4, n)[..4] == b
  {
    var bytes := ReadBytes(s, 4, n);
    forall i | 0 <= i < 4 ensures bytes[i] == b[i] {
      ReadBytesAt(s, 4, n, i);
    }
  }

  lemma HeadValue(s: string, n: nat, v: nat)
    requires v < TWO32 && |ReadBytes(s, 4, n)| >= 4 && Starts(s, BigEndian(v))
    ensures Value(ReadBytes(s, 4, n)[..4]) == v
  {
    HeadRead(s, n, BigEndian(v));
    AddressValue(v);
  }

  lemma DataChecked(s: string, n: nat)
    requires |s| > 1 && s[1] == '3' && AfterS(s, TEXT_START) == 1 && Hex2Bin(s, 2) == n + 5
    ensures Decode(s) == Checked(SREC_DATA4, 4, n, n + 5, ReadBytes(s, 4, n + 5), n)
  {
  }

  lemma CheckedValue(s: string, n: nat, v: nat)
    requires v < TWO32 && Starts(s, BigEndian(v))
    ensures var d := Checked(SREC_DATA4, 4, n, n + 5, ReadBytes(s, 4, n + 5), n); d.code < 0 || d.addr == v
  {
    if |ReadBytes(s, 4, n + 5)| >= 4 {
      HeadValue(s, n + 5, v);
    }
  }

  lemma CheckedShape(bytes: seq<byte>, n: nat)
    ensures var d := Checked(SREC_DATA4, 4, n, n + 5, bytes, n);
            d.code < 0 || (d.code == SREC_DATA4 && d.count == |d.data| == n)
  {
  }

  /** Refused, or taken for a record of the same length at an address of eight digits. */
  predicate Misread(d: Record, a: nat, len: nat) {
    || d.code < 0
    || (d.code == SREC_DATA4 && d.count == |d.data| == len && d.addr < TWO32 && (a < TWO32 + 16 ==> d.addr == a / 16))
  }

  lemma HighDecodes(a: nat, data: seq<byte>)
    requires a >= TWO32 && |data| <= 16
    ensures Misread(Decode(Line(a, data)), a, |data|)
  {
    var s, n := Line(a, data), |data|;
    LineStart(a, data);
    DataChecked(s, n);
    CheckedShape(ReadBytes(s, 4, n + 5), n);
    AddressBelow(s);
    if a < TWO32 + 16 {
      CutReads(a, data);
      CheckedValue(s, n, a / 16);
    }
  }

  // ----- no line writes the last byte

  predicate Missed(e: Effect, k: nat) {
    match e
    case Stop(o) => k !in o.st.mem
    case Continue(st) => k !in st.mem
  }

  lemma StoreMisses(st: Load, addr: nat, data: seq<byte>, offset: int, k: nat)
    requires k !in st.mem
    requires var at := (addr + offset) % TWO64; !(at <= k < at + |data|)
    ensures k !in Store(st, addr, data, offset).mem
  {
    PutExactly(st.mem, (addr + offset) % TWO64, data, k);
  }

  lemma ElsewhereInRange(addr: nat, len: nat, offset: int, top: nat)
    requires addr < TWO32 <= top < TWO64 && -TWO64 < offset && 0 <= top + offset < TWO64 && addr + len <= top
    ensures var at := (addr + offset) % TWO64; !(at <= top + offset < at + len)
  {
    if addr + offset >= 0 {
      DivModUnique(addr + offset, TWO64, 0, addr + offset);
    } else {
      DivModUnique(addr + offset, TWO64, -1, addr + offset + TWO64);
    }
  }

  /** Whatever is stored ends before `top`. */
  predicate Harmless(d: Record, top: nat) {
    d.code < 0 || (d.code == SREC_DATA4 && d.count == |d.data| && d.addr < TWO32 && d.addr + |d.data| <= top)
  }

  lemma HarmlessMisses(h: Handler, line: string, d: Record, offset: int, top: nat, k: nat, st: Load)
    requires h == Handling(offset) && d == Decode(line) && Harmless(d, top)
    requires TWO32 <= top < TWO64 && -TWO64 < offset && k == top + offset < TWO64 && k !in st.mem
    ensures Missed(h(line, st), k)
  {
    if d.code >= 0 {
      ElsewhereInRange(d.addr, |d.data|, offset, top);
      StoreMisses(st, d.addr, d.data, offset, k);
    }
  }

  lemma HarmlessLine(line: string, d: Record, offset: int, top: nat, k: nat)
    requires d == Decode(line) && Harmless(d, top)
    requires TWO32 <= top < TWO64 && -TWO64 < offset && k == top + offset < TWO64
    ensures MissesLine(Handling(offset), line, k)
  {
    var h := Handling(offset);
    forall st: Load | k !in st.mem ensures Missed(h(line, st), k) {
      HarmlessMisses(h, line, d, offset, top, k, st);
    }
  }

  lemma RecordHarmless(a: nat, data: seq<byte>, last: nat, top: nat)
    requires |data| <= 16 && a <= last && (a == last || a + |data| <= last) && TWO32 <= last <= top
    ensures Harmless(Decode(Line(a, data)), top)
  {
    if a < TWO32 {
      LineDecodes(a, data);
    } else {
      HighDecodes(a, data);
    }
  }

  /** The handler leaves address `k` alone on each of the lines. */
  ghost predicate Misses(h: Handler, lines: seq<string>, k: nat) {
    forall i :: 0 <= i < |lines| ==> MissesLine(h, lines[i], k)
  }

  ghost predicate MissesLine(h: Handler, line: string, k: nat) {
    forall st: Load :: k !in st.mem ==> Missed(h(line, st), k)
  }

  lemma {:induction false} ProcessMisses(h: Handler, lines: seq<string>, k: nat, st: Load)
    requires Misses(h, lines, k) && k !in st.mem
    ensures k !in Process(Script(lines, false), h, st).st.mem
    decreases |lines|
  {
    if lines != [] {
      var e := h(lines[0], st);
      assert MissesLine(h, lines[0], k);
      if e.Continue? {
        ProcessMisses(h, lines[1..], k, e.st);
      }
    }
  }

  /** A record that is not the last one ends before it. */
  ghost predicate Before(recs: seq<Rec>, last: nat) {
    forall i :: 0 <= i < |recs| ==> recs[i].a == last || recs[i].a + |recs[i].data| <= last
  }

  lemma {:induction false} ChunksBefore(mem: nat -> byte, a: nat, n: nat)
    requires n > 0
    ensures Before(Chunks(mem, a, n), LastRecord(a, n))
    decreases n
  {
    if n > 16 {
      LastRecordNext(a, n);
      ChunksBefore(mem, a + 16, n - 16);
      assert Chunks(mem, a, n) == [Rec(a, Bytes(mem, a, 16))] + Chunks(mem, a + 16, n - 16);
    } else {
      assert Chunks(mem, a, n) == [Rec(a, Bytes(mem, a, n))] + Chunks(mem, a + n, 0);
    }
  }

  lemma DataMisses(lines: seq<string>, recs: seq<Rec>, last: nat, offset: int, top: nat, k: nat)
    requires Rendered(lines, recs) && Before(recs, last) && UpTo(recs, last)
    requires TWO32 <= last <= top < TWO64 && -TWO64 < offset && k == top + offset < TWO64
    ensures Misses(Handling(offset), lines, k)
  {
    forall i | 0 <= i < |lines| ensures MissesLine(Handling(offset), lines[i], k) {
      var line := lines[i];
      RecordHarmless(recs[i].a, recs[i].data, last, top);
      HarmlessLine(line, Decode(line), offset, top, k);
    }
  }

  lemma FrameMisses(h: Handler, out: seq<string>, k: nat)
    requires |out| >= 2 && out[0] == HEADER && out[|out| - 1] == TRAILER
    requires Frames(h) && Misses(h, out[1..|out| - 1], k)
    ensures Misses(h, out, k)
  {
    var lines := out[1..|out| - 1];
    forall i | 0 <= i < |out| ensures MissesLine(h, out[i], k) {
      if 0 < i < |out| - 1 {
        assert out[i] == lines[i - 1];
      } else {
        EdgeMisses(h, k);
      }
    }
  }

  lemma EdgeMisses(h: Handler, k: nat)
    requires Frames(h)
    ensures MissesLine(h, HEADER, k) && MissesLine(h, TRAILER, k)
  {
    forall st: Load | k !in st.mem ensures Missed(h(HEADER, st), k) && Missed(h(TRAILER, st), k) {
      assert h(HEADER, st) == Continue(st) && h(TRAILER, st) == Stop(Loaded(st, 0));
    }
  }

  lemma LastInRange(address: nat, count: nat)
    requires count > 0
    ensures LastRecord(address, count) <= address + count - 1
  {
    assert (count - 1) / 16 * 16 <= count - 1;
  }

  lemma SavedDataMisses(lines: seq<string>, mem: nat -> byte, address: nat, count: nat, offset: int, k: nat)
    requires Rendered(lines, Chunks(mem, address, count)) && address + count <= TWO64 && count > 0
    requires 0 <= address + offset && k == address + offset + count - 1 < TWO64
    requires LastRecord(address, count) >= TWO32
    ensures Misses(Handling(offset), lines, k)
  {
    LastInRange(address, count);
    ChunksUpTo(mem, address, count);
    ChunksBefore(mem, address, count);
    DataMisses(lines, Chunks(mem, address, count), LastRecord(address, count), offset, address + count - 1, k);
  }

  lemma MissedAtEnd(h: Handler, out: seq<string>, k: nat, st: Load)
    requires |out| >= 2 && out[0] == HEADER && out[|out| - 1] == TRAILER
    requires Frames(h) && Misses(h, out[1..|out| - 1], k) && k !in st.mem
    ensures k !in Process(Script(out, false), h, st).st.mem
  {
    FrameMisses(h, out, k);
    ProcessMisses(h, out, k, st);
  }

  lemma LastByteMissed(out: seq<string>, mem: nat -> byte, address: nat, count: nat, offset: int, k: nat)
    requires IsSaved(out, mem, address, count) && address + count <= TWO64 && count > 0
    requires 0 <= address + offset && k == address + offset + count - 1 < TWO64
    requires LastRecord(address, count) >= TWO32
    ensures k !in Process(Script(out, false), Handling(offset), NOTHING_LOADED).st.mem
  {
    SavedDataMisses(out[1..|out| - 1], mem, address, count, offset, k);
    HandlingFrames(offset);
    MissedAtEnd(Handling(offset), out, k, NOTHING_LOADED);
  }

  lemma NotPutBack(o: Outcome, mem: nat -> byte, address: nat, count: nat, offset: int, mem0: map<nat, byte>, k: nat)
    requires count > 0 && k == address + offset + count - 1 && k !in o.st.mem
    ensures !PutBack(o, mem, address, count, offset, mem0)
  {
    assert address + offset <= k < address + offset + count;
  }

  lemma NotLoadedBack(out: seq<string>, mem: nat -> byte, address: nat, count: nat, offset: int, k: nat)
    requires IsSaved(out, mem, address, count) && address + count <= TWO64 && count > 0
    requires 0 <= address + offset && k == address + offset + count - 1 < TWO64
    requires LastRecord(address, count) >= TWO32
    ensures !LoadsBack(out, mem, address, count, offset, map[])
  {
    SavedScript(out, mem, address, count);
    LastByteMissed(out, mem, address, count, offset, k);
    NotPutBack(Process(Script(out, false), Handling(offset), NOTHING_LOADED), mem, address, count, offset, map[], k);
  }

  /** Loading what was saved puts it back, whatever memory held before, exactly if the last record starts below 2^32. */
  lemma SavedLoadsIff(out: seq<string>, mem: nat -> byte, address: nat, count: nat, offset: int)
    requires IsSaved(out, mem, address, count) && address + count <= TWO64 && count < TWO64
    requires 0 <= address + offset && address + offset + count <= TWO64
    ensures (forall mem0 :: LoadsBack(out, mem, address, count, offset, mem0)) <==>
            count == 0 || LastRecord(address, count) < TWO32
  {
    if count == 0 || LastRecord(address, count) < TWO32 {
      forall mem0 ensures LoadsBack(out, mem, address, count, offset, mem0) {
        SavedLoads(out, mem, address, count, offset, mem0);
      }
    } else {
      NotLoadedBack(out, mem, address, count, offset, address + offset + count - 1);
    }
  }
}
