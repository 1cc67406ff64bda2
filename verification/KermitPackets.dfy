/**
 Packets as they are built: the receiver's reading of a packet inverts the building of it, in the
 short and in the long form. Hence an undisturbed session loads the file, and every reply the
 receiver itself sends would pass its own rules.
 */
module KermitPackets {
  import opened KermitCodec
  import opened KermitMachine
  import opened KermitLedger
  import opened KermitDelivery
  import opened Octets

  /** Reading `data` inside a packet. */
  lemma {:induction false} ScanData(input: seq<byte>, at: nat, sum: int, done: seq<byte>, data: seq<byte>)
    requires 4 <= at && at + |data| < |input| && Printable(data)
    requires forall i :: 0 <= i < |data| ==> input[at + i] == data[i]
    ensures ScanBody(input, at, sum, done, |data|) == ScanBody(input, at + |data|, sum + Sum(data), done + data, 0)
    decreases |data|
  {
    if data == [] {
      assert done + data == done;
    } else {
      var c, rest := data[0], data[1..];
      assert data == [c] + rest;
      SumAppend([c], rest);
      SumOne(c);
      assert done + [c] + rest == done + data;
      ScanData(input, at + 1, sum + c, done + [c], rest);
    }
  }

  lemma ScanTail(input: seq<byte>, at: nat, sum: int, data: seq<byte>)
    requires 4 <= at < |input| - 1 && input[at] == ToChar(Check6(sum)) && input[at + 1] == END_CHAR
    ensures ScanBody(input, at, sum, data, 0) == Whole(at + 2, UnToChar(input[2]), input[3], data)
  {
  }

  predicate Sendable(n: int, kind: byte, data: seq<byte>) {
    0 <= n < 224 && !IsControl(kind) && Printable(data)
  }

  /** The characters of a packet body from `at` on: data, check, end. */
  predicate EndsPacket(input: seq<byte>, at: nat, sum: int, data: seq<byte>) {
    && Printable(data)
    && at + |data| + 1 < |input|
    && (forall i :: 0 <= i < |data| ==> input[at + i] == data[i])
    && input[at + |data|] == ToChar(Check6(sum))
    && input[at + |data| + 1] == END_CHAR
  }

  lemma ScanAll(input: seq<byte>, at: nat, sum: int, data: seq<byte>)
    requires 4 <= at && EndsPacket(input, at, sum + Sum(data), data)
    ensures ScanBody(input, at, sum, [], |data|) == ScanBody(input, at + |data|, sum + Sum(data), data, 0)
  {
    ScanData(input, at, sum, [], data);
    assert [] + data == data;
  }

  lemma ScanEnd(input: seq<byte>, at: nat, sum: int, data: seq<byte>)
    requires 4 <= at && EndsPacket(input, at, sum + Sum(data), data)
    ensures ScanBody(input, at, sum, [], |data|) == Whole(at + |data| + 2, UnToChar(input[2]), input[3], data)
  {
    ScanAll(input, at, sum, data);
    ScanTail(input, at + |data|, sum + Sum(data), data);
  }

  /** `c` is a printable encoding of `x`. */
  predicate Reads(c: byte, x: int) {
    !IsControl(c) && UnToChar(c) == x
  }

  lemma ToCharReads(x: int)
    requires 0 <= x < 224
    ensures Reads(ToChar(x), x)
  {
  }

  predicate StartsPacket(input: seq<byte>, length: int, n: int, kind: byte) {
    && |input| >= 4 && input[0] == START_CHAR && input[3] == kind && !IsControl(kind)
    && Reads(input[1], length) && Reads(input[2], n)
  }

  lemma ScanShort(input: seq<byte>, n: int, kind: byte, data: seq<byte>)
    requires StartsPacket(input, |data| + 3, n, kind)
    requires EndsPacket(input, 4, Sum3(input[1], input[2], input[3]) + Sum(data), data)
    ensures Scan(input) == Whole(|data| + 6, n, kind, data)
  {
    ScanEnd(input, 4, Sum3(input[1], input[2], input[3]), data);
  }

  lemma ScanExtended(input: seq<byte>, n: int, kind: byte, data: seq<byte>, sum: int)
    requires StartsPacket(input, 0, n, kind) && |input| >= 7 && |data| < 224 * 95 - 1
    requires Reads(input[4], (|data| + 1) / 95) && Reads(input[5], (|data| + 1) % 95)
    requires sum == Sum3(Sum3(input[1], input[2], input[3]), input[4], input[5]) && input[6] == ToChar(Check6(sum))
    requires EndsPacket(input, 7, sum + input[6] + Sum(data), data)
    ensures Scan(input) == Whole(|data| + 9, n, kind, data)
  {
    assert UnToChar(input[4]) * 95 + UnToChar(input[5]) == |data| + 1;
    ScanEnd(input, 7, sum + input[6], data);
  }

  /** Reading inverts building, whatever follows on the line. */
  lemma PacketScans(n: int, kind: byte, data: seq<byte>, rest: seq<byte>)
    requires Sendable(n, kind, data) && |data| <= 220
    ensures Scan(Packet(n, kind, data) + [END_CHAR] + rest) == Whole(|data| + 6, n, kind, data)
  {
    var header := [ToChar(|data| + 3), ToChar(n), kind];
    ToCharReads(|data| + 3);
    ToCharReads(n);
    SumThree(header);
    SumAppend(header, data);
    ScanShort(Packet(n, kind, data) + [END_CHAR] + rest, n, kind, data);
  }

  lemma LongSum(three: seq<byte>, hi: byte, lo: byte, check: byte, data: seq<byte>)
    requires |three| == 3
    ensures Sum(three + [hi, lo]) == Sum3(Sum3(three[0], three[1], three[2]), hi, lo)
    ensures Sum(three + [hi, lo] + [check] + data) == Sum(three + [hi, lo]) + check + Sum(data)
  {
    assert three + [hi, lo] == three + [hi] + [lo];
    SumThree(three);
    SumAppend(three + [hi], [lo]);
    SumAppend(three, [hi]);
    SumOne(hi);
    SumOne(lo);
    SumAppend(three + [hi, lo], [check]);
    SumOne(check);
    SumAppend(three + [hi, lo] + [check], data);
  }

  lemma LongPacketScans(n: int, kind: byte, data: seq<byte>, rest: seq<byte>)
    requires Sendable(n, kind, data) && |data| < 224 * 95 - 1
    ensures Scan(LongPacket(n, kind, data) + [END_CHAR] + rest) == Whole(|data| + 9, n, kind, data)
  {
    var hi, lo := ToChar((|data| + 1) / 95), ToChar((|data| + 1) % 95);
    var three := [ToChar(0), ToChar(n), kind];
    var header := [ToChar(0), ToChar(n), kind, hi, lo];
    assert header == three + [hi, lo];
    ToCharReads(0);
    ToCharReads(n);
    ToCharReads((|data| + 1) / 95);
    ToCharReads((|data| + 1) % 95);
    LongSum(three, hi, lo, ToChar(Check6(Sum(header))), data);
    ScanExtended(LongPacket(n, kind, data) + [END_CHAR] + rest, n, kind, data, Sum(header));
  }

  // ----- an undisturbed session

  /** The sender uses the short form while the length fits in one printable character. */
  ghost function Encode(p: Item): seq<byte> {
    (if |p.data| <= 91 then Packet(p.n, p.kind, p.data) else LongPacket(p.n, p.kind, p.data)) + [END_CHAR]
  }

  ghost function EncodeAll(items: seq<Item>): seq<byte> {
    if items == [] then [] else Encode(items[0]) + EncodeAll(items[1..])
  }

  predicate Encodable(items: seq<Item>) {
    forall i :: 0 <= i < |items| ==>
      Sendable(items[i].n, items[i].kind, items[i].data) && |items[i].data| < 224 * 95 - 1
  }

  lemma ItemScans(p: Item, rest: seq<byte>)
    requires Sendable(p.n, p.kind, p.data) && |p.data| < 224 * 95 - 1
    ensures Scan(Encode(p) + rest) == Whole(|Encode(p)|, p.n, p.kind, p.data)
  {
    if |p.data| <= 91 {
      PacketScans(p.n, p.kind, p.data, rest);
    } else {
      LongPacketScans(p.n, p.kind, p.data, rest);
    }
  }

  lemma SingletonGroup(p: Item, a: Attempt)
    requires Carries(a, p)
    ensures Group(p, [a])
  {
    assert [a][1..] == [] && Retries(p, [], true);
  }

  lemma FirstAttempt(first: seq<byte>, rest: seq<byte>, a: Attempt)
    requires first != [] && !a.Partial? && Scan(first + rest) == a && a.used == |first|
    ensures Attempts(first + rest) == [a] + (if Ends(a) then [] else Attempts(rest))
    ensures Settled(first + rest) == (Ends(a) || Settled(rest))
  {
    assert (first + rest)[a.used..] == rest;
  }

  lemma ItemAttempt(p: Item, rest: seq<byte>) returns (a: Attempt)
    requires Sendable(p.n, p.kind, p.data) && |p.data| < 224 * 95 - 1
    ensures Attempts(Encode(p) + rest) == [a] + (if Ends(a) then [] else Attempts(rest))
    ensures Settled(Encode(p) + rest) == (Ends(a) || Settled(rest))
    ensures Group(p, [a]) && (Ends(a) ==> p.kind == BREAK_TYPE)
  {
    a := Whole(|Encode(p)|, p.n, p.kind, p.data);
    ItemScans(p, rest);
    FirstAttempt(Encode(p), rest, a);
    SingletonGroup(p, a);
  }

  lemma FlattenCons(g: seq<Attempt>, gs: seq<seq<Attempt>>)
    ensures Flatten([g] + gs) == g + Flatten(gs)
  {
    assert ([g] + gs)[1..] == gs;
  }

  lemma AttemptsCons(all: seq<byte>, rest: seq<byte>, a: Attempt, gs: seq<seq<Attempt>>)
    requires Attempts(all) == [a] + (if Ends(a) then [] else Attempts(rest))
    requires Settled(all) == (Ends(a) || Settled(rest))
    requires Settled(rest) && Attempts(rest) == Flatten(gs) && (Ends(a) ==> gs == [])
    ensures Settled(all) && Attempts(all) == Flatten([[a]] + gs)
  {
    FlattenCons([a], gs);
  }

  lemma GroupsCons(items: seq<Item>, a: Attempt, gs: seq<seq<Attempt>>)
    requires items != [] && Group(items[0], [a])
    requires |gs| == |items| - 1 && forall i :: 0 <= i < |gs| ==> Group(items[1..][i], gs[i])
    ensures forall i :: 0 <= i < |items| ==> Group(items[i], ([[a]] + gs)[i])
  {
    forall i | 0 <= i < |items| ensures Group(items[i], ([[a]] + gs)[i]) {
      if i > 0 {
        assert Group(items[1..][i - 1], gs[i - 1]);
      }
    }
  }

  /** An undisturbed session is a stream of one whole attempt for each packet. */
  lemma {:induction false} SessionScans(lastN: int, items: seq<Item>) returns (gs: seq<seq<Attempt>>)
    requires Encodable(items) && Session(lastN, items)
    ensures Settled(EncodeAll(items)) && Attempts(EncodeAll(items)) == Flatten(gs)
    ensures |gs| == |items| && forall i :: 0 <= i < |gs| ==> Group(items[i], gs[i])
    decreases items
  {
    gs := [];
    if items != [] {
      var p, rest := items[0], EncodeAll(items[1..]);
      var a := ItemAttempt(p, rest);
      var gs' := SessionScans(p.n, items[1..]);
      gs := [[a]] + gs';
      AttemptsCons(EncodeAll(items), rest, a, gs');
      GroupsCons(items, a, gs');
    }
  }

  /** Quote, split, packet, send, receive, check, unquote, store: the file is in memory. */
  lemma CleanSessionLoadsFile(mem: map<nat, byte>, start: nat, parms: seq<byte>, items: seq<Item>,
                              quote: byte, file: seq<byte>)
    requires |parms| == SEND_DATA_SIZE && Encodable(items)
    requires Sends(items, quote, file) && KTrans(quote) == quote
    ensures var input := EncodeAll(items);
            Loaded(Run(Initial(mem, start, parms), input, |input|), mem, start, file)
  {
    var gs := SessionScans(-1, items);
    FileArrives(mem, start, parms, EncodeAll(items), items, gs, quote, file);
  }

  // ----- replies

  /** The reply, ended as the receiver expects packets to be, reads back as what was meant. */
  ghost predicate WellFormedReply(r: Reply) {
    && Sendable(r.n, r.kind, r.data)
    && Scan(Packet(r.n, r.kind, r.data) + [END_CHAR]) == Whole(|r.data| + 6, r.n, r.kind, r.data)
    && |Packet(r.n, r.kind, r.data)| + 2 <= 24
  }

  ghost predicate RepliesOk(s: State) {
    0 <= s.n < 224 && forall i :: 0 <= i < |s.sent| ==> WellFormedReply(s.sent[i])
  }

  lemma ReplyOk(line: Line, n: int, kind: byte, data: seq<byte>)
    requires Sendable(n, kind, data) && |data| <= 13
    ensures WellFormedReply(Reply(line, n, kind, data))
  {
    PacketScans(n, kind, data, []);
    assert Packet(n, kind, data) + [END_CHAR] + [] == Packet(n, kind, data) + [END_CHAR];
  }

  lemma AnswersPrintable(bytes: nat)
    ensures Printable(AnswerData(bytes)) && |AnswerData(bytes)| <= 13
  {
  }

  lemma FailReplies(s: State)
    requires RepliesOk(s)
    ensures RepliesOk(Fail(s))
  {
    ReplyOk(s.line, s.n, NACK_TYPE, []);
  }

  lemma AcceptReplies(s: State)
    requires Sound(s) && RepliesOk(s)
    ensures RepliesOk(Accept(s))
  {
    ReplyOk(s.line, s.n, ACK_TYPE, []);
    var bytes := Answered(s.ptr);
    AnswersPrintable(bytes);
    ReplyOk(ParmsLine(s.parms, bytes), s.n, ACK_TYPE, AnswerData(bytes));
  }

  /** Any other step sends nothing, and numbers stay in the printable range. */
  lemma QuietStep(s: State, c: byte)
    requires Sound(s) && Step(s, c) != Fail(s) && Step(s, c) != Accept(s)
    ensures Step(s, c).sent == s.sent && (Step(s, c).n == s.n || 0 <= Step(s, c).n < 224)
  {
  }

  lemma StepReplies(s: State, c: byte)
    requires Sound(s) && RepliesOk(s)
    ensures RepliesOk(Step(s, c))
  {
    FailReplies(s);
    AcceptReplies(s);
    if Step(s, c) != Fail(s) && Step(s, c) != Accept(s) {
      QuietStep(s, c);
    }
  }

  /** On every stream, every reply is a packet that the receiver itself would accept, and fits `a_b`. */
  lemma {:induction false} RepliesWellFormed(s: State, input: seq<byte>, k: nat)
    requires Sound(s) && RepliesOk(s) && k <= |input|
    ensures RepliesOk(Run(s, input, k))
  {
    if k > 0 {
      RepliesWellFormed(s, input, k - 1);
      StepReplies(Run(s, input, k - 1), input[k - 1]);
    }
  }
}
