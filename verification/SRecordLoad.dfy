/**
 Loading a stream of S-Records into memory: `read_record` and `load_serial`.
 */
module SRecordLoad {
  import opened Arithmetic
  import opened SRecord
  import opened Octets

  // ----- read_record

  /** A line and where the next one begins; the download cancelled; or the line is quiet. */
  datatype Got = Got(line: string, next: nat) | Cancel | Quiet

  predicate EndsLine(c: char) {
    c == '\r' || c == '\n'
  }

  predicate Cancels(c: char) {
    c == '\0' || c == 3 as char
  }

  function ReadRecord(input: string, p: nat, buf: string): (g: Got)
    requires p <= |input|
    ensures g.Got? ==> p <= g.next <= |input| && (|buf| < SREC_MAXRECLEN ==> p < g.next)
    decreases |input| - p
  {
    if |buf| >= SREC_MAXRECLEN then Got(buf, p)
    else if p == |input| then Quiet
    else if EndsLine(input[p]) then Got(buf, p + 1)
    else if Cancels(input[p]) then Cancel
    else ReadRecord(input, p + 1, buf + [input[p]])
  }

  predicate Plain(s: string) {
    forall i :: 0 <= i < |s| ==> !EndsLine(s[i]) && !Cancels(s[i])
  }

  /** A plain line that fits is read whole. */
  lemma {:induction false} PlainLineReads(input: string, p: nat, buf: string, line: string)
    requires Plain(line) && |buf| + |line| < SREC_MAXRECLEN
    requires p + |line| < |input| && input[p..p + |line|] == line && EndsLine(input[p + |line|])
    ensures ReadRecord(input, p, buf) == Got(buf + line, p + |line| + 1)
    decreases |line|
  {
    if line == "" {
      assert buf + line == buf;
    } else {
      assert input[p] == line[0];
      assert input[p + 1..p + |line|] == line[1..];
      PlainLineReads(input, p + 1, buf + [line[0]], line[1..]);
      assert buf + [line[0]] + line[1..] == buf + line;
    }
  }

  lemma {:induction false} HexPlain(bs: seq<byte>)
    ensures Plain(HexAll(bs))
  {
    if bs != [] {
      HexPlain(bs[..|bs| - 1]);
      Hex2Plain(bs[|bs| - 1]);
    }
  }

  lemma DigitPlain(n: nat)
    requires n < 16
    ensures !EndsLine(HexDigit(n)) && !Cancels(HexDigit(n))
  {
  }

  lemma {:induction false} PadPlain(v: nat, n: nat)
    ensures Plain(CText.HexPad(v, n, true))
  {
    if n > 0 {
      PadPlain(v / 16, n - 1);
      DigitPlain(v % 16);
    }
  }

  lemma Hex2Plain(b: byte)
    ensures Plain(Hex2(b))
  {
    DigitPlain(b / 16);
    DigitPlain(b % 16);
  }

  lemma LinePlain(a: nat, data: seq<byte>)
    requires |data| <= 250
    ensures Plain(Line(a, data))
  {
    Hex2Plain(|data| + 5);
    PadPlain(a, Width(a));
    HexPlain(data);
    Hex2Plain(Checksum(a, data));
  }

  // ----- load_serial

  /** Memory with `bs` stored from `at` on. */
  function Put(m: map<nat, byte>, at: nat, bs: seq<byte>): map<nat, byte> {
    if bs == [] then m else Put(m, at, bs[..|bs| - 1])[at + |bs| - 1 := bs[|bs| - 1]]
  }

  lemma {:induction false} PutAppend(m: map<nat, byte>, at: nat, x: seq<byte>, y: seq<byte>)
    ensures Put(Put(m, at, x), at + |x|, y) == Put(m, at, x + y)
    decreases |y|
  {
    if y == [] {
      assert x + y == x;
    } else {
      assert (x + y)[..|x + y| - 1] == x + y[..|y| - 1];
      PutAppend(m, at, x, y[..|y| - 1]);
    }
  }

  /** Storing changes exactly the addresses stored to. */
  lemma {:induction false} PutExactly(m: map<nat, byte>, at: nat, bs: seq<byte>, k: nat)
    ensures at <= k < at + |bs| ==> k in Put(m, at, bs) && Put(m, at, bs)[k] == bs[k - at]
    ensures !(at <= k < at + |bs|) ==> (k in Put(m, at, bs) <==> k in m) && (k in m ==> Put(m, at, bs)[k] == m[k])
    decreases |bs|
  {
    if bs != [] {
      PutExactly(m, at, bs[..|bs| - 1], k);
    }
  }

  /** Memory and the lowest and highest address written. */
  datatype Load = Load(mem: map<nat, byte>, startAddr: nat, endAddr: nat)

  const NOTHING_LOADED := Load(map[], TWO64 - 1, 0)

  /** `Overrun` stands for a copy whose length is a negative count, which as a size exceeds every buffer. */
  datatype Outcome = Waiting(st: Load) | Aborted(st: Load) | Overrun(st: Load) | Loaded(st: Load, entry: nat)

  function Store(st: Load, addr: nat, data: seq<byte>, offset: int): Load {
    var at := (addr + offset) % TWO64;
    var end := (at + |data| - 1) % TWO64;
    Load(Put(st.mem, at, data),
         if at < st.startAddr then at else st.startAddr,
         if end > st.endAddr then end else st.endAddr)
  }

  /** The lines that `read_record` returns one after the other, and whether the last call cancels. */
  datatype Script = Script(lines: seq<string>, cancelled: bool)

  function Lines(input: string, p: nat): Script
    requires p <= |input|
    decreases |input| - p
  {
    match ReadRecord(input, p, "")
    case Quiet => Script([], false)
    case Cancel => Script([], true)
    case Got(line, next) =>
      var rest := Lines(input, next);
      Script([line] + rest.lines, rest.cancelled)
  }

  /** What one line does: go on with new contents, or stop. */
  datatype Effect = Continue(st: Load) | Stop(o: Outcome)

  function Handle(line: string, offset: int, st: Load): Effect {
    var d := Decode(line);
    if d.code < 0 then Stop(Aborted(st))
    else if IsData(d.code) then
      if d.count < 0 then Stop(Overrun(st)) else Continue(Store(st, d.addr, d.data, offset))
    else if d.code in {SREC_END2, SREC_END3, SREC_END4} then Stop(Loaded(st, d.addr))
    else Continue(st)
  }

  type Handler = (string, Load) -> Effect

  function Handling(offset: int): Handler {
    (line: string, st: Load) => Handle(line, offset, st)
  }

  /** The lines one after the other, up to the first that stops the download. */
  function Process(script: Script, h: Handler, st: Load): Outcome
    decreases |script.lines|
  {
    if script.lines == [] then if script.cancelled then Aborted(st) else Waiting(st)
    else match h(script.lines[0], st)
      case Stop(o) => o
      case Continue(st') => Process(script.(lines := script.lines[1..]), h, st')
  }

  /** The size that is reported at the end. */
  function Size(st: Load): nat {
    (st.endAddr - st.startAddr + 1) % TWO64
  }

  /** `read_record`, one character after the other. */
  method ReadRecordLoop(input: string, start: nat) returns (g: Got)
    requires start <= |input|
    ensures g == ReadRecord(input, start, "")
  {
    var p, buf := start, "";
    while |buf| < SREC_MAXRECLEN
      invariant start <= p <= |input| && ReadRecord(input, p, buf) == ReadRecord(input, start, "")
      decreases |input| - p
    {
      if p == |input| {
        return Quiet;
      }
      var c := input[p];
      if EndsLine(c) {
        return Got(buf, p + 1);
      } else if Cancels(c) {
        return Cancel;
      }
      buf, p := buf + [c], p + 1;
    }
    return Got(buf, p);
  }

  const STREAM_START := 0

  /** `load_serial`, one record after the other. */
  method LoadSerial(input: string, offset: int, mem: map<nat, byte>) returns (o: Outcome)
    ensures o == Process(Lines(input, STREAM_START), Handling(offset), Load(mem, TWO64 - 1, 0))
  {
    var p, st := STREAM_START, Load(mem, TWO64 - 1, 0);
    ghost var goal := Process(Lines(input, p), Handling(offset), st);
    while true
      invariant 0 <= p <= |input| && Process(Lines(input, p), Handling(offset), st) == goal
      decreases |input| - p
    {
      var g := ReadRecordLoop(input, p);
      if g.Quiet? {
        return Waiting(st);
      } else if g.Cancel? {
        return Aborted(st);
      }
      assert Lines(input, p).lines[1..] == Lines(input, g.next).lines;
      match Handle(g.line, offset, st) {
        case Stop(o') => return o';
        case Continue(st') => st := st';
      }
      p := g.next;
    }
  }

  predicate IsData(code: int) {
    code == SREC_DATA2 || code == SREC_DATA3 || code == SREC_DATA4
  }

  lemma OverrunCount(line: string, d: Record, offset: int, st: Load)
    requires d == Decode(line) && IsData(d.code)
    ensures Handle(line, offset, st) == Stop(Overrun(st)) <==> d.count < 0
  {
  }

  lemma DataKind(s: string, p: nat)
    requires p < |s| && IsData(DecodeAt(s, p).code)
    ensures s[p] != '5'
  {
  }

  /** A data record is copied in range exactly if its length byte covers address and checksum. */
  lemma OverrunIff(line: string, p: nat, offset: int, st: Load)
    requires p == AfterS(line, TEXT_START) < |line| && IsData(DecodeAt(line, p).code)
    ensures Handle(line, offset, st) == Stop(Overrun(st)) <==> Hex2Bin(line, p + 1) < KindOf(line[p]).1 + 1
  {
    OverrunCount(line, DecodeAt(line, p), offset, st);
    DataKind(line, p);
    CountInRangeIff(line, p);
  }

  const EMPTY_RECORD := "S1000000FF"

  /** A record with length byte 0 and the right checksum is accepted, with a count of -3. */
  lemma EmptyRecordOverruns(offset: int, st: Load)
    ensures Handle(EMPTY_RECORD, offset, st) == Stop(Overrun(st))
  {
    var s := EMPTY_RECORD;
    assert AfterS(s, TEXT_START) == 1;
    assert Hex2Bin(s, 2) == 0 && Hex2Bin(s, 4) == 0 && Hex2Bin(s, 6) == 0 && Hex2Bin(s, 8) == 0xFF;
    ReadBytesExact(s, 4, [0, 0, 0xFF]);
    SumThree([0, 0, 0xFF]);
  }
}
