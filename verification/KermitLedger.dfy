/**
 The Kermit receiver packet by packet. `Scan` says what one attempt at a packet amounts to,
 `Book` what each attempt does to the file. The machine keeps the book on every stream.
 */
module KermitLedger {
  import opened KermitCodec
  import opened KermitMachine
  import opened Octets

  /** The next thing on the line, and how many characters it takes. */
  datatype Attempt =
    | Partial
    | Noise(used: nat)
    | Cancel(used: nat)
    | Early(used: nat)
    | Late(used: nat, n: byte)
    | Whole(used: nat, n: byte, kind: byte, data: seq<byte>)

  function Scan(input: seq<byte>): (a: Attempt)
    requires input != []
    ensures a.Partial? || 1 <= a.used <= |input|
  {
    if input[0] == ETX_CHAR then Cancel(1)
    else if input[0] != START_CHAR then Noise(1)
    else if |input| < 2 then Partial
    else if IsControl(input[1]) then Early(2)
    else if |input| < 3 then Partial
    else if IsControl(input[2]) then Early(3)
    else if |input| < 4 then Partial
    else if IsControl(input[3]) then Late(4, UnToChar(input[2]))
    else
      var length, sum := UnToChar(input[1]), Sum3(input[1], input[2], input[3]);
      if length == 0 then ScanLong(input, sum)
      else ScanBody(input, 4, sum, [], if length <= 3 then 0 else length - 3)
  }

  function Sum3(a: int, b: int, c: int): int {
    a + b + c
  }

  function ScanLong(input: seq<byte>, sum: int): (a: Attempt)
    requires |input| >= 4
    ensures a.Partial? || 1 <= a.used <= |input|
    ensures a.Partial? || ((a.Late? || a.Whole?) && a.n == UnToChar(input[2]))
  {
    var n := UnToChar(input[2]);
    if |input| < 5 then Partial
    else if IsControl(input[4]) then Late(5, n)
    else if |input| < 6 then Partial
    else if IsControl(input[5]) then Late(6, n)
    else if |input| < 7 then Partial
    else if input[6] != ToChar(Check6(Sum3(sum, input[4], input[5]))) then Late(7, n)
    else
      var length := UnToChar(input[4]) * 95 + UnToChar(input[5]);
      ScanBody(input, 7, Sum3(sum, input[4], input[5]) + input[6], [], if length <= 1 then 0 else length - 1)
  }

  /** `at` characters in, summing to `sum`, with `data` read and `left` data characters to come. */
  function ScanBody(input: seq<byte>, at: nat, sum: int, data: seq<byte>, left: nat): (a: Attempt)
    requires 4 <= at <= |input|
    ensures a.Partial? || 1 <= a.used <= |input|
    ensures a.Partial? || ((a.Late? || a.Whole?) && a.n == UnToChar(input[2]))
    decreases left
  {
    var n := UnToChar(input[2]);
    if |input| <= at then Partial
    else if left > 0 then
      if IsControl(input[at]) then Late(at + 1, n)
      else ScanBody(input, at + 1, sum + input[at], data + [input[at]], left - 1)
    else if input[at] != ToChar(Check6(sum)) then Late(at + 1, n)
    else if |input| <= at + 1 then Partial
    else if input[at + 1] != END_CHAR then Late(at + 2, n)
    else Whole(at + 2, n, input[3], data)
  }

  // ----- the book

  /** The file as of the last checkpoint, the file so far, and the state of the dialogue. */
  datatype Book = Book(kept: Decoder, cur: Decoder, n: int, lastN: int, line: Line, sent: seq<Reply>, phase: Phase)

  const EMPTY_BOOK := Book(EMPTY_DECODER, EMPTY_DECODER, 0, -1, DEFAULT_LINE, [], Wait)

  function Nack(b: Book): Book {
    b.(cur := b.kept, sent := b.sent + [Reply(b.line, b.n, NACK_TYPE, [])])
  }

  function Open(b: Book, n: byte): Book {
    if n == b.lastN then b.(n := n, cur := b.kept) else b.(n := n, lastN := n, kept := b.cur)
  }

  function SendLine(data: seq<byte>): Line {
    ParmsLine(data, Answered(|data|))
  }

  /** What one accepted packet adds to the file. */
  function Contribution(quote: byte, d: Decoder, kind: byte, data: seq<byte>): Decoder {
    if kind == DATA_TYPE then Unquote(quote, d, data) else d
  }

  function Enter(b: Book, a: Attempt): Book
    requires !a.Partial?
  {
    match a
    case Noise(_) => b
    case Cancel(_) => b.(phase := Aborted)
    case Early(_) => Nack(b)
    case Late(_, n) => Nack(Open(b, n))
    case Whole(_, n, kind, data) =>
      var o := Open(b, n);
      var line := if kind == SEND_TYPE then SendLine(data) else o.line;
      o.(cur := Contribution(o.line.quote, o.cur, kind, data), line := line,
         phase := if kind == BREAK_TYPE then Done else Wait,
         sent := o.sent + [Reply(line, n, ACK_TYPE, if kind == SEND_TYPE then AnswerData(Answered(|data|)) else [])])
  }

  /** The complete attempts on a stream, up to the one that ends the download. */
  function Attempts(input: seq<byte>): (t: seq<Attempt>)
    ensures forall i :: 0 <= i < |t| ==> !t[i].Partial?
  {
    if input == [] || Scan(input).Partial? then []
    else
      var a := Scan(input);
      [a] + (if Ends(a) then [] else Attempts(input[a.used..]))
  }

  predicate Ends(a: Attempt) {
    a.Cancel? || (a.Whole? && a.kind == BREAK_TYPE)
  }

  /** Nothing is left over: every character belongs to a complete attempt or follows the end. */
  predicate Settled(input: seq<byte>) {
    input == [] || (!Scan(input).Partial? && (Ends(Scan(input)) || Settled(input[Scan(input).used..])))
  }

  function Account(b: Book, t: seq<Attempt>): Book
    requires forall i :: 0 <= i < |t| ==> !t[i].Partial?
    decreases t
  {
    if t == [] then b else Account(Enter(b, t[0]), t[1..])
  }

  lemma {:induction false} AccountAppend(b: Book, t: seq<Attempt>, u: seq<Attempt>)
    requires forall i :: 0 <= i < |t| ==> !t[i].Partial?
    requires forall i :: 0 <= i < |u| ==> !u[i].Partial?
    ensures Account(b, t + u) == Account(Account(b, t), u)
    decreases t
  {
    if t == [] {
      assert t + u == u;
    } else {
      assert (t + u)[1..] == t[1..] + u;
      AccountAppend(Enter(b, t[0]), t[1..], u);
    }
  }

  // ----- the machine keeps the book

  /** Memory from `start` up to the write address holds exactly the decoded text. */
  ghost predicate Holds(st: Store, start: nat, d: Decoder) {
    && st.addr == start + |d.out|
    && st.escape == d.escape
    && forall i :: start <= i < st.addr ==> i in st.mem && st.mem[i] == d.out[i - start]
  }

  /** The checkpoint and the dialogue are those of the book. */
  ghost predicate Underway(s: State, start: nat, b: Book) {
    && Sound(s)
    && s.mark.addr <= s.store.addr
    && Holds(Rewind(s), start, b.kept)
    && s.n == b.n && s.lastN == b.lastN && s.line == b.line && s.sent == b.sent
  }

  ghost predicate Matches(s: State, start: nat, b: Book) {
    && Underway(s, start, b)
    && Holds(s.store, start, b.cur)
    && s.phase == b.phase
    && (b.phase == Wait ==> s.ptr == 0)
  }

  lemma FailMatches(s: State, start: nat, b: Book)
    requires Underway(s, start, b) && b.phase == Wait
    ensures Matches(Fail(s), start, Nack(b))
  {
  }

  lemma PutHolds(quote: byte, st: Store, start: nat, d: Decoder, c: byte)
    requires Holds(st, start, d)
    ensures Holds(Put(quote, st, c), start, UnquoteChar(quote, d, c))
  {
  }

  /** Past the type of a packet, when nothing of the data has been read. */
  ghost predicate InHeader(t: State, start: nat, o: Book, kind: byte, sum: int) {
    && Underway(t, start, o)
    && Holds(t.store, start, o.kept)
    && t.sum == sum
    && t.kState == kind
    && t.ptr == 0
  }

  /** Inside a packet, with `data` read and `left` data characters to come. */
  ghost predicate InBody(t: State, start: nat, o: Book, kind: byte, sum: int, data: seq<byte>, left: nat) {
    && Underway(t, start, o)
    && Holds(t.store, start, Contribution(o.line.quote, o.kept, kind, data))
    && (if left > 0 then t.length == left + 1 else t.length <= 1)
    && t.sum == sum
    && t.kState == kind
    && (kind == SEND_TYPE ==> HasParms(t, data))
  }

  ghost predicate HasParms(t: State, data: seq<byte>) {
    && Sound(t)
    && t.ptr == (if |data| < SEND_DATA_SIZE - 1 then |data| else SEND_DATA_SIZE - 1)
    && forall i :: 0 <= i < t.ptr ==> t.parms[i] == data[i]
  }

  // One character at a time.

  lemma SeqStep(t: State, start: nat, b: Book, c: byte)
    requires Underway(t, start, b) && Holds(t.store, start, b.cur) && t.phase == Seq && !IsControl(c)
    ensures var t', o := Step(t, c), Opened(b, UnToChar(c));
            && t'.phase == Kind && t'.length == t.length - 1 && t'.ptr == t.ptr
            && Underway(t', start, o) && Holds(t'.store, start, o.kept)
            && t'.sum == t.sum + c
  {
  }

  lemma KindStep(t: State, start: nat, o: Book, c: byte)
    requires t.phase == Kind && t.ptr == 0 && !IsControl(c)
    requires Underway(t, start, o) && Holds(t.store, start, o.kept)
    ensures var t', l := Step(t, c), t.length - 1;
            && t'.phase == (if l == -2 then ExtHi else BodyPhase(l)) && t'.length == l
            && InHeader(t', start, o, c, t.sum + c)
  {
  }

  lemma LengthStep(t: State, start: nat, o: Book, kind: byte, c: byte)
    requires t.phase in {ExtHi, ExtLo, ExtCheck} && InHeader(t, start, o, kind, t.sum) && !IsControl(c)
    requires t.phase == ExtCheck ==> c == ToChar(Check6(t.sum))
    ensures var t' := Step(t, c);
            && InHeader(t', start, o, kind, t.sum + c)
            && (t.phase == ExtHi ==> t'.phase == ExtLo && t'.lenHi == UnToChar(c))
            && (t.phase == ExtLo ==> t'.phase == ExtCheck && t'.length == t.lenHi * 95 + UnToChar(c))
            && (t.phase == ExtCheck ==> t'.phase == BodyPhase(t.length) && t'.length == t.length)
  {
  }

  lemma DataStep(t: State, start: nat, o: Book, kind: byte, sum: int, data: seq<byte>, left: nat, c: byte)
    requires left > 0 && t.phase == Data && InBody(t, start, o, kind, sum, data, left) && !IsControl(c)
    ensures var t' := Step(t, c);
            && t'.phase == BodyPhase(left)
            && InBody(t', start, o, kind, sum + c, data + [c], left - 1)
  {
    assert (data + [c])[..|data|] == data;
    PutHolds(t.line.quote, t.store, start, Contribution(o.line.quote, o.kept, kind, data), c);
  }

  lemma CheckStep(t: State, c: byte)
    requires Sound(t) && t.phase == Check && c == ToChar(Check6(t.sum))
    ensures Step(t, c) == t.(phase := End)
  {
  }

  lemma AcceptStep(t: State, start: nat, o: Book, kind: byte, sum: int, data: seq<byte>, used: nat, n: byte)
    requires o.phase == Wait && o.cur == o.kept && o.n == o.lastN == n
    requires t.phase == End && InBody(t, start, o, kind, sum, data, 0)
    ensures Matches(Step(t, END_CHAR), start, Enter(o, Whole(used, n, kind, data)))
  {
    if kind == SEND_TYPE {
      assert Answered(t.ptr) == Answered(|data|);
      assert ParmsLine(t.parms, Answered(t.ptr)) == SendLine(data);
    }
  }

  lemma FailStep(t: State, start: nat, o: Book, c: byte)
    requires Underway(t, start, o) && o.phase == Wait && FailsOn(t, c)
    ensures Matches(Step(t, c), start, Nack(o))
  {
    FailMatches(t, start, o);
  }

  // Along the scan.

  lemma TailRun(tr: seq<State>, start: nat, o: Book, input: seq<byte>, at: nat, sum: int, data: seq<byte>)
    requires IsTrace(tr, input) && 4 <= at < |input|
    requires o.phase == Wait && o.cur == o.kept && o.n == o.lastN == UnToChar(input[2])
    requires var t := tr[at]; t.phase == Check && InBody(t, start, o, input[3], sum, data, 0)
    requires !ScanBody(input, at, sum, data, 0).Partial?
    ensures var a := ScanBody(input, at, sum, data, 0); Matches(tr[a.used], start, Enter(o, a))
  {
    var t := tr[at];
    if input[at] != ToChar(Check6(sum)) {
      FailStep(t, start, o, input[at]);
    } else {
      CheckStep(t, input[at]);
      var t' := tr[at + 1];
      if input[at + 1] == END_CHAR {
        AcceptStep(t', start, o, input[3], sum, data, at + 2, UnToChar(input[2]));
      } else {
        FailStep(t', start, o, input[at + 1]);
      }
    }
  }

  /** From inside a packet to its end. */
  lemma {:induction false} BodyRun(tr: seq<State>, start: nat, o: Book, input: seq<byte>, at: nat, sum: int,
                           data: seq<byte>, left: nat)
    requires IsTrace(tr, input) && 4 <= at <= |input|
    requires o.phase == Wait && o.cur == o.kept && o.n == o.lastN == UnToChar(input[2])
    requires var t := tr[at]; t.phase == BodyPhase(left + 1) && InBody(t, start, o, input[3], sum, data, left)
    requires !ScanBody(input, at, sum, data, left).Partial?
    ensures var a := ScanBody(input, at, sum, data, left); Matches(tr[a.used], start, Enter(o, a))
    decreases left
  {
    if left == 0 {
      TailRun(tr, start, o, input, at, sum, data);
    } else if IsControl(input[at]) {
      FailStep(tr[at], start, o, input[at]);
    } else {
      DataStep(tr[at], start, o, input[3], sum, data, left, input[at]);
      BodyRun(tr, start, o, input, at + 1, sum + input[at], data + [input[at]], left - 1);
    }
  }

  /** The book once a packet is open: only what is below the new checkpoint counts. */
  function Opened(b: Book, n: byte): Book {
    var o := Open(b, n);
    o.(cur := o.kept)
  }

  lemma EnterOpened(b: Book, a: Attempt)
    requires a.Late? || a.Whole?
    ensures Enter(Opened(b, a.n), a) == Enter(b, a)
  {
  }

  lemma MarkRun(tr: seq<State>, input: seq<byte>)
    requires IsTrace(tr, input) && input != [] && tr[0].phase == Wait && input[0] == START_CHAR
    ensures tr[1] == tr[0].(phase := Len, sum := 0)
  {
    assert tr[1] == Step(tr[0], input[0]);
  }

  /** After the mark and the length. */
  lemma LenRun(tr: seq<State>, start: nat, b: Book, input: seq<byte>)
    requires IsTrace(tr, input) && Matches(tr[0], start, b) && b.phase == Wait && |input| >= 2
    requires input[0] == START_CHAR && !IsControl(input[1])
    ensures tr[2] == tr[0].(phase := Seq, sum := input[1], length := UnToChar(input[1]))
  {
    MarkRun(tr, input);
    assert tr[2] == Step(tr[1], input[1]);
  }

  /** The sequence number opens the packet in the book. */
  lemma SeqRun(tr: seq<State>, start: nat, b: Book, input: seq<byte>)
    requires IsTrace(tr, input) && Matches(tr[0], start, b) && b.phase == Wait && |input| >= 3
    requires input[0] == START_CHAR && !IsControl(input[1]) && !IsControl(input[2])
    ensures var t, o := tr[3], Opened(b, UnToChar(input[2]));
            && t.phase == Kind && t.length == UnToChar(input[1]) - 1 && t.ptr == 0
            && Underway(t, start, o) && Holds(t.store, start, o.kept)
            && t.sum == Sum3(0, input[1], input[2])
  {
    LenRun(tr, start, b, input);
    SeqStep(tr[2], start, b, input[2]);
  }

  lemma KindRun(tr: seq<State>, start: nat, b: Book, input: seq<byte>)
    requires IsTrace(tr, input) && Matches(tr[0], start, b) && b.phase == Wait && |input| >= 4
    requires input[0] == START_CHAR && forall i :: 1 <= i < 4 ==> !IsControl(input[i])
    ensures var t, l := tr[4], UnToChar(input[1]) - 2;
            && t.phase == (if l == -2 then ExtHi else BodyPhase(l)) && t.length == l
            && InHeader(t, start, Opened(b, UnToChar(input[2])), input[3], Sum3(input[1], input[2], input[3]))
  {
    SeqRun(tr, start, b, input);
    KindStep(tr[3], start, Opened(b, UnToChar(input[2])), input[3]);
  }

  /** The first length character of a long packet. */
  lemma HighRun(tr: seq<State>, start: nat, b: Book, input: seq<byte>)
    requires IsTrace(tr, input) && Matches(tr[0], start, b) && b.phase == Wait && |input| >= 5
    requires input[0] == START_CHAR && forall i :: 1 <= i < 5 ==> !IsControl(input[i])
    requires UnToChar(input[1]) == 0
    ensures var t := tr[5];
            && t.phase == ExtLo && t.lenHi == UnToChar(input[4])
            && InHeader(t, start, Opened(b, UnToChar(input[2])), input[3],
                        Sum3(input[1], input[2], input[3]) + input[4])
  {
    KindRun(tr, start, b, input);
    LengthStep(tr[4], start, Opened(b, UnToChar(input[2])), input[3], input[4]);
  }

  lemma LowRun(tr: seq<State>, start: nat, b: Book, input: seq<byte>)
    requires IsTrace(tr, input) && Matches(tr[0], start, b) && b.phase == Wait && |input| >= 6
    requires input[0] == START_CHAR && forall i :: 1 <= i < 6 ==> !IsControl(input[i])
    requires UnToChar(input[1]) == 0
    ensures var t := tr[6];
            && t.phase == ExtCheck && t.length == UnToChar(input[4]) * 95 + UnToChar(input[5])
            && InHeader(t, start, Opened(b, UnToChar(input[2])), input[3],
                        Sum3(Sum3(input[1], input[2], input[3]), input[4], input[5]))
  {
    HighRun(tr, start, b, input);
    LengthStep(tr[5], start, Opened(b, UnToChar(input[2])), input[3], input[5]);
  }

  lemma HeaderIsBody(t: State, start: nat, o: Book, kind: byte, sum: int, left: nat)
    requires InHeader(t, start, o, kind, sum) && t.phase == BodyPhase(t.length)
    requires left == if t.length <= 1 then 0 else t.length - 1
    ensures t.phase == BodyPhase(left + 1) && InBody(t, start, o, kind, sum, [], left)
  {
  }

  lemma LongBody(tr: seq<State>, start: nat, o: Book, input: seq<byte>, sum: int)
    requires IsTrace(tr, input) && |input| >= 7
    requires o.phase == Wait && o.cur == o.kept && o.n == o.lastN == UnToChar(input[2])
    requires tr[6].phase == ExtCheck && InHeader(tr[6], start, o, input[3], sum) && tr[6].length >= 0
    requires input[6] == ToChar(Check6(sum))
    ensures var left := if tr[6].length <= 1 then 0 else tr[6].length - 1;
            tr[7].phase == BodyPhase(left + 1) && InBody(tr[7], start, o, input[3], sum + input[6], [], left)
  {
    LengthStep(tr[6], start, o, input[3], input[6]);
    HeaderIsBody(tr[7], start, o, input[3], sum + input[6], if tr[6].length <= 1 then 0 else tr[6].length - 1);
  }

  lemma LongRun(tr: seq<State>, start: nat, b: Book, input: seq<byte>, sum: int)
    requires IsTrace(tr, input) && Matches(tr[0], start, b) && b.phase == Wait && |input| >= 7
    requires input[0] == START_CHAR && forall i :: 1 <= i < 6 ==> !IsControl(input[i])
    requires UnToChar(input[1]) == 0 && sum == Sum3(input[1], input[2], input[3]) && !ScanLong(input, sum).Partial?
    ensures var a := ScanLong(input, sum); Matches(tr[a.used], start, Enter(b, a))
  {
    var o, sum' := Opened(b, UnToChar(input[2])), Sum3(sum, input[4], input[5]);
    LowRun(tr, start, b, input);
    EnterOpened(b, ScanLong(input, sum));
    if input[6] == ToChar(Check6(sum')) {
      LongBody(tr, start, o, input, sum');
      var length := UnToChar(input[4]) * 95 + UnToChar(input[5]);
      BodyRun(tr, start, o, input, 7, sum' + input[6], [], if length <= 1 then 0 else length - 1);
    } else {
      FailStep(tr[6], start, o, input[6]);
    }
  }

  lemma LongAttempt(tr: seq<State>, start: nat, b: Book, input: seq<byte>, sum: int)
    requires IsTrace(tr, input) && Matches(tr[0], start, b) && b.phase == Wait && |input| >= 4
    requires input[0] == START_CHAR && forall i :: 1 <= i < 4 ==> !IsControl(input[i])
    requires UnToChar(input[1]) == 0 && sum == Sum3(input[1], input[2], input[3]) && !ScanLong(input, sum).Partial?
    ensures var a := ScanLong(input, sum); Matches(tr[a.used], start, Enter(b, a))
  {
    var o := Opened(b, UnToChar(input[2]));
    if IsControl(input[4]) {
      KindRun(tr, start, b, input);
      FailStep(tr[4], start, o, input[4]);
      EnterOpened(b, ScanLong(input, sum));
    } else if IsControl(input[5]) {
      HighRun(tr, start, b, input);
      FailStep(tr[5], start, o, input[5]);
      EnterOpened(b, ScanLong(input, sum));
    } else {
      LongRun(tr, start, b, input, sum);
    }
  }

  lemma ShortAttempt(tr: seq<State>, start: nat, b: Book, input: seq<byte>)
    requires IsTrace(tr, input) && Matches(tr[0], start, b) && b.phase == Wait && |input| >= 4 && !Scan(input).Partial?
    requires input[0] == START_CHAR && forall i :: 1 <= i < 4 ==> !IsControl(input[i])
    requires UnToChar(input[1]) != 0
    ensures Matches(tr[Scan(input).used], start, Enter(b, Scan(input)))
  {
    KindRun(tr, start, b, input);
    var o, l, sum := Opened(b, UnToChar(input[2])), UnToChar(input[1]), Sum3(input[1], input[2], input[3]);
    var left := if l <= 3 then 0 else l - 3;
    HeaderIsBody(tr[4], start, o, input[3], sum, left);
    BodyRun(tr, start, o, input, 4, sum, [], left);
    EnterOpened(b, Scan(input));
  }

  lemma BrokenHeader(tr: seq<State>, start: nat, b: Book, input: seq<byte>)
    requires IsTrace(tr, input) && Matches(tr[0], start, b) && b.phase == Wait && |input| >= 2 && !Scan(input).Partial?
    requires input[0] == START_CHAR && exists i :: 1 <= i < 4 && i < |input| && IsControl(input[i])
    ensures Matches(tr[Scan(input).used], start, Enter(b, Scan(input)))
  {
    if IsControl(input[1]) {
      MarkRun(tr, input);
      FailStep(tr[1], start, b, input[1]);
    } else if IsControl(input[2]) {
      LenRun(tr, start, b, input);
      FailStep(tr[2], start, b, input[2]);
    } else {
      SeqRun(tr, start, b, input);
      FailStep(tr[3], start, Opened(b, UnToChar(input[2])), input[3]);
      EnterOpened(b, Scan(input));
    }
  }

  /** One attempt, from waiting to waiting. */
  lemma AttemptRun(tr: seq<State>, start: nat, b: Book, input: seq<byte>)
    requires IsTrace(tr, input) && Matches(tr[0], start, b) && b.phase == Wait && input != [] && !Scan(input).Partial?
    ensures Matches(tr[Scan(input).used], start, Enter(b, Scan(input)))
  {
    if input[0] == START_CHAR && |input| >= 4 && forall i :: 1 <= i < 4 ==> !IsControl(input[i]) {
      if UnToChar(input[1]) == 0 {
        LongAttempt(tr, start, b, input, Sum3(input[1], input[2], input[3]));
      } else {
        ShortAttempt(tr, start, b, input);
      }
    } else if input[0] == START_CHAR {
      BrokenHeader(tr, start, b, input);
    } else {
      assert tr[1] == Step(tr[0], input[0]);
    }
  }

  lemma {:induction false} StoppedStays(s: State, input: seq<byte>, k: nat)
    requires Sound(s) && s.phase in {Done, Aborted} && k <= |input|
    ensures Run(s, input, k) == s
  {
    if k > 0 {
      StoppedStays(s, input, k - 1);
    }
  }

  lemma AttemptState(s: State, start: nat, b: Book, input: seq<byte>, used: nat)
    requires Matches(s, start, b) && b.phase == Wait && input != [] && !Scan(input).Partial? && used == Scan(input).used
    ensures Matches(Run(s, input, used), start, Enter(b, Scan(input)))
  {
    AttemptRun(Trace(s, input), start, b, input);
  }

  lemma AccountFirst(b: Book, input: seq<byte>)
    requires input != [] && !Scan(input).Partial? && Settled(input)
    ensures var a := Scan(input);
            Account(b, Attempts(input)) ==
                if Ends(a) then Enter(b, a) else Account(Enter(b, a), Attempts(input[a.used..]))
  {
    var a := Scan(input);
    if Ends(a) {
      assert Attempts(input) == [a] && [a][1..] == [];
    } else {
      assert Attempts(input)[1..] == Attempts(input[a.used..]);
    }
  }

  lemma RestOfRun(s: State, t: State, input: seq<byte>, pos: nat, rest: seq<byte>)
    requires Sound(s) && pos <= |input| && t == Run(s, input, pos) && rest == input[pos..]
    ensures Run(s, input, |input|) == Run(t, rest, |rest|)
  {
    RunResume(s, input, pos, |rest|);
  }

  /** Once the run has stopped, the rest of the stream changes nothing. */
  lemma StoppedIsEnd(s: State, t: State, input: seq<byte>, pos: nat)
    requires Sound(s) && pos <= |input| && t == Run(s, input, pos)
    requires pos == |input| || t.phase in {Done, Aborted}
    ensures Run(s, input, |input|) == t
  {
    if pos < |input| {
      RestOfRun(s, t, input, pos, input[pos..]);
      StoppedStays(t, input[pos..], |input| - pos);
    }
  }

  lemma EndStops(t: State, start: nat, b: Book, a: Attempt)
    requires Ends(a) && !a.Partial? && Matches(t, start, Enter(b, a))
    ensures t.phase in {Done, Aborted}
  {
  }

  /**
   On every stream of complete attempts the machine's memory, checkpoint, replies and phase
   are those of the book.
   */
  lemma {:induction false} MachineKeepsBook(s: State, start: nat, b: Book, input: seq<byte>)
    requires Matches(s, start, b) && b.phase == Wait && Settled(input)
    ensures Matches(Run(s, input, |input|), start, Account(b, Attempts(input)))
    decreases |input|
  {
    if input != [] {
      var a := Scan(input);
      var t := Run(s, input, a.used);
      AttemptState(s, start, b, input, a.used);
      AccountFirst(b, input);
      if Ends(a) {
        EndStops(t, start, b, a);
        StoppedIsEnd(s, t, input, a.used);
      } else {
        RestOfRun(s, t, input, a.used, input[a.used..]);
        MachineKeepsBook(t, start, Enter(b, a), input[a.used..]);
      }
    }
  }
}
