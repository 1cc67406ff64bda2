/**
 The Kermit receiver as a machine that is driven by one character at a time, and what
 every run of it keeps, on every stream of characters.
 */
module KermitMachine {
  import opened KermitCodec
  import opened Octets

  const SEND_DATA_SIZE := 20

  /** What the sender asked for: end of line, padding, and the quote character it will use. */
  datatype Line = Line(eol: byte, padCount: byte, padChar: byte, quote: byte)

  const DEFAULT_LINE := Line(END_CHAR, 0, 0, K_ESCAPE)

  /** Where the packet loop waits for its next character. */
  datatype Phase = Wait | Len | Seq | Kind | ExtHi | ExtLo | ExtCheck | Data | Check | End | Done | Aborted

  /** Memory, the write address and the pending-escape flag. */
  datatype Store = Store(mem: map<nat, byte>, addr: nat, escape: bool)

  /** The saved copies of write address and escape flag. */
  datatype Mark = Mark(addr: nat, escape: bool)

  datatype State = State(
    phase: Phase, store: Store, mark: Mark, kState: byte, kStateSaved: byte, n: int, lastN: int,
    sum: int, length: int, lenHi: int, parms: seq<byte>, ptr: nat, line: Line, sent: seq<Reply>)

  function Initial(mem: map<nat, byte>, start: nat, parms: seq<byte>): State {
    State(Wait, Store(mem, start, false), Mark(start, false), 0, 0, 0, -1, 0, 0, 0, parms, 0, DEFAULT_LINE, [])
  }

  // ----- replies

  /** One packet sent back, and the line parameters in force when it is sent. */
  datatype Reply = Reply(line: Line, n: int, kind: byte, data: seq<byte>)

  function Pads(line: Line): seq<byte> {
    seq(line.padCount, _ => line.padChar)
  }

  /** What leaves the serial port: padding, the packet, and the end of line unless it is NUL. */
  ghost function Wire(r: Reply): seq<byte> {
    Pads(r.line) + Packet(r.n, r.kind, r.data) + (if r.line.eol == 0 then [] else [r.line.eol])
  }

  /** The answers to the send-initiate parameters, in the order of the parameters. */
  const ANSWERS: seq<byte> :=
    [ToChar(94), ToChar(1), ToChar(0), 0x40, ToChar(END_CHAR), 0x23, 0x4E, 0x31, 0x4E,
     ToChar(2), ToChar(0), ToChar(94), ToChar(94)]

  /** How many parameters are looked at: the one that filled the buffer is ignored. */
  function Answered(received: nat): nat {
    if received >= SEND_DATA_SIZE - 1 then SEND_DATA_SIZE - 2 else received
  }

  function AnswerData(bytes: nat): seq<byte> {
    ANSWERS[..if bytes >= 10 then 13 else bytes]
  }

  function ParmsLine(parms: seq<byte>, bytes: nat): Line
    requires bytes <= |parms|
  {
    Line(if bytes >= 5 then UnToChar(parms[4]) else END_CHAR,
         if bytes >= 3 then UnToChar(parms[2]) else 0,
         if bytes >= 4 then KTrans(parms[3]) else 0,
         if bytes >= 6 then parms[5] else K_ESCAPE)
  }

  // ----- one character

  function Write(st: Store, b: byte): Store {
    Store(st.mem[st.addr := b], st.addr + 1, st.escape)
  }

  function Put(quote: byte, st: Store, c: byte): Store {
    if st.escape then Write(st, KTrans(c)).(escape := false)
    else if c == quote then st.(escape := true)
    else Write(st, c)
  }

  function Rewind(s: State): Store {
    Store(s.store.mem, s.mark.addr, s.mark.escape)
  }

  ghost function Fail(s: State): State {
    s.(phase := Wait, ptr := 0, kState := s.kStateSaved, store := Rewind(s),
       sent := s.sent + [Reply(s.line, s.n, NACK_TYPE, [])])
  }

  /** A repeated sequence number goes back to the checkpoint, a new one makes a checkpoint. */
  function Checkpoint(s: State): State {
    if s.n == s.lastN then s.(kState := s.kStateSaved, store := Rewind(s))
    else s.(lastN := s.n, kStateSaved := s.kState, mark := Mark(s.store.addr, s.store.escape))
  }

  function BodyPhase(length: int): Phase {
    if length > 1 then Data else Check
  }

  function Absorb(s: State, c: byte): State
    requires |s.parms| == SEND_DATA_SIZE && s.ptr < SEND_DATA_SIZE
  {
    if s.kState == DATA_TYPE then s.(store := Put(s.line.quote, s.store, c))
    else if s.kState == SEND_TYPE then
      s.(parms := s.parms[s.ptr := c], ptr := if s.ptr + 1 >= SEND_DATA_SIZE then s.ptr else s.ptr + 1)
    else s
  }

  ghost function Accept(s: State): State
    requires |s.parms| == SEND_DATA_SIZE && s.ptr < SEND_DATA_SIZE
  {
    if s.kState == SEND_TYPE then
      var bytes := Answered(s.ptr);
      var line := ParmsLine(s.parms, bytes);
      s.(phase := Wait, ptr := 0, line := line, sent := s.sent + [Reply(line, s.n, ACK_TYPE, AnswerData(bytes))])
    else
      var s' := s.(sent := s.sent + [Reply(s.line, s.n, ACK_TYPE, [])]);
      if s.kState == BREAK_TYPE then s'.(phase := Done) else s'.(phase := Wait, ptr := 0)
  }

  predicate Sound(s: State) {
    |s.parms| == SEND_DATA_SIZE && s.ptr < SEND_DATA_SIZE
  }

  ghost function Step(s: State, c: byte): (s': State)
    requires Sound(s)
    ensures Sound(s')
  {
    match s.phase
    case Wait =>
      if c == START_CHAR then s.(phase := Len, sum := 0)
      else if c == ETX_CHAR then s.(phase := Aborted)
      else s
    case Done => s
    case Aborted => s
    case End => if c != END_CHAR then Fail(s) else Accept(s)
    case _ => if IsControl(c) then Fail(s) else Take(s, c)
  }

  /** An acceptable character inside a packet. */
  ghost function Take(s: State, c: byte): (s': State)
    requires Sound(s) && s.phase !in {Wait, End, Done, Aborted}
    ensures Sound(s')
  {
    var t := s.(sum := s.sum + c);
    match s.phase
    case Len => t.(phase := Seq, length := UnToChar(c))
    case Seq => Checkpoint(t.(phase := Kind, n := UnToChar(c), length := s.length - 1))
    case Kind =>
      var length := s.length - 1;
      t.(phase := if length == -2 then ExtHi else BodyPhase(length), kState := c, length := length)
    case ExtHi => t.(phase := ExtLo, lenHi := UnToChar(c))
    case ExtLo => t.(phase := ExtCheck, length := s.lenHi * 95 + UnToChar(c))
    case ExtCheck =>
      if c != ToChar(Check6(s.sum)) then Fail(s) else t.(phase := BodyPhase(s.length))
    case Data =>
      Absorb(t.(length := s.length - 1, phase := BodyPhase(s.length - 1)), c)
    case Check =>
      if c != ToChar(Check6(s.sum)) then Fail(s) else s.(phase := End)
  }

  /** The state after the first `k` characters. */
  ghost function Run(s: State, input: seq<byte>, k: nat): (s': State)
    requires Sound(s) && k <= |input|
    ensures Sound(s')
  {
    if k == 0 then s else Step(Run(s, input, k - 1), input[k - 1])
  }

  /** A run only depends on the characters it has read. */
  lemma {:induction false} RunPrefix(s: State, input: seq<byte>, input': seq<byte>, k: nat)
    requires Sound(s) && k <= |input| && k <= |input'| && forall i :: 0 <= i < k ==> input[i] == input'[i]
    ensures Run(s, input, k) == Run(s, input', k)
  {
    if k > 0 {
      RunPrefix(s, input, input', k - 1);
    }
  }

  /** A run can be resumed anywhere. */
  lemma {:induction false} RunResume(s: State, input: seq<byte>, k: nat, m: nat)
    requires Sound(s) && k + m <= |input|
    ensures Run(s, input, k + m) == Run(Run(s, input, k), input[k..], m)
  {
    if m > 0 {
      RunResume(s, input, k, m - 1);
    }
  }

  /** `tr[i]` is the state before character `i`. */
  ghost predicate IsTrace(tr: seq<State>, input: seq<byte>) {
    && |tr| == |input| + 1
    && (forall i :: 0 <= i < |tr| ==> Sound(tr[i]))
    && forall i {:trigger Step(tr[i], input[i])} :: 0 <= i < |input| ==> tr[i + 1] == Step(tr[i], input[i])
  }

  /** The character makes the packet fail. */
  predicate FailsOn(t: State, c: byte) {
    match t.phase
    case Wait => false
    case Done => false
    case Aborted => false
    case End => c != END_CHAR
    case _ => IsControl(c) || (t.phase in {Check, ExtCheck} && c != ToChar(Check6(t.sum)))
  }

  // One step of a trace, phase by phase.

  lemma NextWait(tr: seq<State>, input: seq<byte>, i: nat)
    requires IsTrace(tr, input) && i < |input| && tr[i].phase == Wait
    ensures tr[i + 1] == if input[i] == START_CHAR then tr[i].(phase := Len, sum := 0)
                         else if input[i] == ETX_CHAR then tr[i].(phase := Aborted) else tr[i]
  {
    assert tr[i + 1] == Step(tr[i], input[i]);
  }

  lemma NextFail(tr: seq<State>, input: seq<byte>, i: nat)
    requires IsTrace(tr, input) && i < |input| && FailsOn(tr[i], input[i])
    ensures tr[i + 1] == Fail(tr[i])
  {
    assert tr[i + 1] == Step(tr[i], input[i]);
  }

  lemma NextLen(tr: seq<State>, input: seq<byte>, i: nat)
    requires IsTrace(tr, input) && i < |input| && tr[i].phase == Len && !IsControl(input[i])
    ensures tr[i + 1] == tr[i].(phase := Seq, sum := tr[i].sum + input[i], length := UnToChar(input[i]))
  {
    assert tr[i + 1] == Step(tr[i], input[i]);
  }

  /** The state between reading a sequence number and comparing it with the last one. */
  function Numbered(s: State, c: byte): State {
    s.(phase := Kind, sum := s.sum + c, n := UnToChar(c), length := s.length - 1)
  }

  lemma NextSeq(tr: seq<State>, input: seq<byte>, i: nat)
    requires IsTrace(tr, input) && i < |input| && tr[i].phase == Seq && !IsControl(input[i])
    ensures tr[i + 1] == Checkpoint(Numbered(tr[i], input[i]))
  {
    assert tr[i + 1] == Step(tr[i], input[i]);
  }

  lemma NextKind(tr: seq<State>, input: seq<byte>, i: nat)
    requires IsTrace(tr, input) && i < |input| && tr[i].phase == Kind && !IsControl(input[i])
    ensures var length := tr[i].length - 1;
            tr[i + 1] == tr[i].(phase := if length == -2 then ExtHi else BodyPhase(length), kState := input[i],
                                sum := tr[i].sum + input[i], length := length)
  {
    assert tr[i + 1] == Step(tr[i], input[i]);
  }

  lemma NextHigh(tr: seq<State>, input: seq<byte>, i: nat)
    requires IsTrace(tr, input) && i < |input| && tr[i].phase == ExtHi && !IsControl(input[i])
    ensures tr[i + 1] == tr[i].(phase := ExtLo, sum := tr[i].sum + input[i], lenHi := UnToChar(input[i]))
  {
    assert tr[i + 1] == Step(tr[i], input[i]);
  }

  lemma NextLow(tr: seq<State>, input: seq<byte>, i: nat)
    requires IsTrace(tr, input) && i < |input| && tr[i].phase == ExtLo && !IsControl(input[i])
    ensures tr[i + 1] == tr[i].(phase := ExtCheck, sum := tr[i].sum + input[i],
                                length := tr[i].lenHi * 95 + UnToChar(input[i]))
  {
    assert tr[i + 1] == Step(tr[i], input[i]);
  }

  lemma NextCheck(tr: seq<State>, input: seq<byte>, i: nat)
    requires IsTrace(tr, input) && i < |input| && tr[i].phase in {ExtCheck, Check} && !IsControl(input[i])
    requires input[i] == ToChar(Check6(tr[i].sum))
    ensures tr[i + 1] == if tr[i].phase == Check then tr[i].(phase := End)
                         else tr[i].(phase := BodyPhase(tr[i].length), sum := tr[i].sum + input[i])
  {
    assert tr[i + 1] == Step(tr[i], input[i]);
  }

  /** The state between counting a data character and passing it on. */
  function Counted(s: State, c: byte): State {
    s.(phase := BodyPhase(s.length - 1), sum := s.sum + c, length := s.length - 1)
  }

  lemma NextData(tr: seq<State>, input: seq<byte>, i: nat)
    requires IsTrace(tr, input) && i < |input| && tr[i].phase == Data && !IsControl(input[i])
    ensures tr[i + 1] == Absorb(Counted(tr[i], input[i]), input[i])
  {
    assert tr[i + 1] == Step(tr[i], input[i]);
  }

  lemma NextEnd(tr: seq<State>, input: seq<byte>, i: nat)
    requires IsTrace(tr, input) && i < |input| && tr[i].phase == End && input[i] == END_CHAR
    ensures tr[i + 1] == Accept(tr[i])
  {
    assert tr[i + 1] == Step(tr[i], input[i]);
  }

  ghost function Trace(s: State, input: seq<byte>): (tr: seq<State>)
    requires Sound(s)
    ensures IsTrace(tr, input) && tr[0] == s
    ensures forall k :: 0 <= k <= |input| ==> tr[k] == Run(s, input, k)
  {
    seq(|input| + 1, k requires 0 <= k <= |input| => Run(s, input, k))
  }

  // ----- safety on every stream

  /** `later` has kept everything that was checkpointed in `earlier`. */
  ghost predicate Preserves(earlier: State, later: State) {
    && earlier.mark.addr <= later.mark.addr <= later.store.addr
    && earlier.store.mem.Keys <= later.store.mem.Keys
    && forall a :: a in earlier.store.mem && a < earlier.mark.addr ==>
                     a in later.store.mem && later.store.mem[a] == earlier.store.mem[a]
  }

  lemma StepPreserves(s: State, c: byte)
    requires Sound(s) && s.mark.addr <= s.store.addr
    ensures Preserves(s, Step(s, c))
  {
  }

  lemma PreservesTransitive(a: State, b: State, c: State)
    requires Preserves(a, b) && Preserves(b, c)
    ensures Preserves(a, c)
  {
  }

  /**
   On every stream, between any two moments: the checkpoint never moves back, the write address
   stays at or above it, and no byte below the checkpoint is rewritten.
   */
  lemma {:induction false} PrefixSafety(s: State, input: seq<byte>, k: nat, m: nat)
    requires Sound(s) && s.mark.addr <= s.store.addr && k <= m <= |input|
    ensures Preserves(Run(s, input, k), Run(s, input, m))
    decreases m
  {
    if m > 0 {
      PrefixSafety(s, input, if k == m then m - 1 else k, m - 1);
      StepPreserves(Run(s, input, m - 1), input[m - 1]);
      if k < m {
        PreservesTransitive(Run(s, input, k), Run(s, input, m - 1), Run(s, input, m));
      }
    }
  }

  lemma NackStep(s: State, c: byte)
    requires Sound(s) && |Step(s, c).sent| > |s.sent| && Step(s, c).sent[|s.sent|].kind == NACK_TYPE
    ensures Step(s, c) == Fail(s)
  {
  }

  /**
   Whenever a negative acknowledgement goes out, write address, escape flag and packet state are
   those of the checkpoint, which has not moved, and memory is untouched.
   */
  lemma ErrorRestoresCheckpoint(s: State, input: seq<byte>, k: nat)
    requires Sound(s) && k < |input|
    requires var a, b := Run(s, input, k), Run(s, input, k + 1);
             |b.sent| > |a.sent| && b.sent[|a.sent|].kind == NACK_TYPE
    ensures var a, b := Run(s, input, k), Run(s, input, k + 1);
            && b.mark == a.mark == Mark(b.store.addr, b.store.escape)
            && b.store.mem == a.store.mem
            && b.kState == b.kStateSaved == a.kStateSaved
            && b.sent == a.sent + [Reply(a.line, a.n, NACK_TYPE, [])]
  {
    NackStep(Run(s, input, k), input[k]);
  }
}
