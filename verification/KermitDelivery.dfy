/**
 What a whole Kermit download delivers: the file, once and in order, in spite of damaged and
 repeated packets; and the one way in which an acknowledged packet is lost.
 */
module KermitDelivery {
  import opened KermitCodec
  import opened KermitMachine
  import opened KermitLedger
  import opened KermitParms
  import opened Octets

  /** A packet as the sender means it. */
  datatype Item = Item(n: byte, kind: byte, data: seq<byte>)

  predicate Carries(a: Attempt, p: Item) {
    a.Whole? && a.n == p.n && a.kind == p.kind && a.data == p.data
  }

  /**
   Further attempts at `p`: noise, damage anywhere in a packet, repetitions. `ok` says whether the
   latest attempt arrived, and the last one has to.
   */
  predicate Retries(p: Item, g: seq<Attempt>, ok: bool) {
    if g == [] then ok
    else match g[0]
      case Noise(_) => Retries(p, g[1..], ok)
      case Early(_) => Retries(p, g[1..], false)
      case Late(_, n) => n == p.n && Retries(p, g[1..], false)
      case Whole(_, _, _, _) => Carries(g[0], p) && Retries(p, g[1..], true)
      case _ => false
  }

  /** All attempts at `p`; the first one gets as far as the sequence number. */
  predicate Group(p: Item, g: seq<Attempt>) {
    g != [] &&
    match g[0]
    case Noise(_) => Group(p, g[1..])
    case Late(_, n) => n == p.n && Retries(p, g[1..], false)
    case Whole(_, _, _, _) => Carries(g[0], p) && Retries(p, g[1..], true)
    case _ => false
  }

  lemma {:induction false} RetriesComplete(p: Item, g: seq<Attempt>, ok: bool)
    requires Retries(p, g, ok)
    ensures forall i :: 0 <= i < |g| ==> !g[i].Partial?
  {
    if g != [] {
      RetriesComplete(p, g[1..], if g[0].Noise? then ok else g[0].Whole?);
      assert forall i :: 0 <= i < |g| ==> g[i] == if i == 0 then g[0] else g[1..][i - 1];
    }
  }

  lemma {:induction false} GroupComplete(p: Item, g: seq<Attempt>)
    requires Group(p, g)
    ensures forall i :: 0 <= i < |g| ==> !g[i].Partial?
  {
    if g[0].Noise? {
      GroupComplete(p, g[1..]);
    } else {
      RetriesComplete(p, g[1..], g[0].Whole?);
    }
    assert forall i :: 0 <= i < |g| ==> g[i] == if i == 0 then g[0] else g[1..][i - 1];
  }

  function LineAfter(line: Line, p: Item): Line {
    if p.kind == SEND_TYPE then SendLine(p.data) else line
  }

  /** The book after `p` has arrived on top of `base`. */
  predicate Arrived(b: Book, base: Decoder, line: Line, p: Item) {
    && b.kept == base
    && b.cur == Contribution(line.quote, base, p.kind, p.data)
    && b.lastN == p.n
    && b.line == LineAfter(line, p)
    && b.phase == (if p.kind == BREAK_TYPE then Done else Wait)
  }

  lemma {:induction false} RetriesArrive(b: Book, base: Decoder, line: Line, p: Item, g: seq<Attempt>, ok: bool)
    requires Retries(p, g, ok) && forall i :: 0 <= i < |g| ==> !g[i].Partial?
    requires b.kept == base && b.lastN == p.n && (b.line == line || b.line == LineAfter(line, p))
    requires if ok then Arrived(b, base, line, p) else b.phase == Wait || p.kind == BREAK_TYPE
    ensures Arrived(Account(b, g), base, line, p)
    decreases g
  {
    if g != [] {
      RetriesArrive(Enter(b, g[0]), base, line, p, g[1..], if g[0].Noise? then ok else g[0].Whole?);
    }
  }

  lemma {:induction false} GroupArrives(b: Book, p: Item, g: seq<Attempt>)
    requires Group(p, g) && forall i :: 0 <= i < |g| ==> !g[i].Partial?
    requires b.lastN != p.n && b.phase == Wait
    ensures Arrived(Account(b, g), b.cur, b.line, p)
    decreases g
  {
    if g[0].Noise? {
      GroupArrives(b, p, g[1..]);
    } else {
      RetriesArrive(Enter(b, g[0]), b.cur, b.line, p, g[1..], g[0].Whole?);
    }
  }

  // ----- whole sessions

  function Flatten(gs: seq<seq<Attempt>>): seq<Attempt> {
    if gs == [] then [] else gs[0] + Flatten(gs[1..])
  }

  /** Consecutive packets carry different sequence numbers, and only the last one is the break. */
  predicate Session(lastN: int, items: seq<Item>)
    decreases items
  {
    items == [] ||
    (items[0].n != lastN && (|items| > 1 ==> items[0].kind != BREAK_TYPE) && Session(items[0].n, items[1..]))
  }

  /** What the packets say the file is, each counted once, in order. */
  function File(items: seq<Item>, line: Line, d: Decoder): Decoder
    decreases items
  {
    if items == [] then d
    else File(items[1..], LineAfter(line, items[0]), Contribution(line.quote, d, items[0].kind, items[0].data))
  }

  /** Every packet counts exactly once, in order, however often it was damaged or repeated. */
  lemma {:induction false} Delivery(b: Book, items: seq<Item>, gs: seq<seq<Attempt>>)
    requires b.phase == Wait && Session(b.lastN, items) && |gs| == |items|
    requires forall i :: 0 <= i < |gs| ==> Group(items[i], gs[i])
    ensures forall i :: 0 <= i < |Flatten(gs)| ==> !Flatten(gs)[i].Partial?
    ensures var r := Account(b, Flatten(gs));
            && r.cur == File(items, b.line, b.cur)
            && (r.phase == Done <==> items != [] && items[|items| - 1].kind == BREAK_TYPE)
    decreases items
  {
    if items != [] {
      var g, p := gs[0], items[0];
      GroupComplete(p, g);
      GroupArrives(b, p, g);
      var b' := Account(b, g);
      if |items| == 1 {
        assert gs[1..] == [] && Flatten(gs) == g + [] == g;
        assert items[1..] == [];
      } else {
        Delivery(b', items[1..], gs[1..]);
        AccountAppend(b, g, Flatten(gs[1..]));
      }
    }
  }

  /** The data of the data packets, joined. */
  function Payload(items: seq<Item>): seq<byte> {
    if items == [] then []
    else (if items[0].kind == DATA_TYPE then items[0].data else []) + Payload(items[1..])
  }

  lemma {:induction false} FileIsPayload(items: seq<Item>, line: Line, d: Decoder)
    requires forall i :: 0 <= i < |items| ==> items[i].kind != SEND_TYPE
    ensures File(items, line, d) == Unquote(line.quote, d, Payload(items))
    decreases items
  {
    if items != [] {
      FileIsPayload(items[1..], line, Contribution(line.quote, d, items[0].kind, items[0].data));
      UnquoteAppend(line.quote, d, items[0].data, Payload(items[1..]));
      assert [] + Payload(items[1..]) == Payload(items[1..]);
    }
  }

  /** The sender's plan: negotiate, then send the quoted file in any pieces, then break. */
  predicate Sends(items: seq<Item>, quote: byte, file: seq<byte>) {
    && |items| >= 2
    && items[0].kind == SEND_TYPE && Offers(items[0].data, quote)
    && (forall i :: 1 <= i < |items| ==> items[i].kind != SEND_TYPE)
    && items[|items| - 1].kind == BREAK_TYPE
    && Session(-1, items)
    && Payload(items) == Quote(quote, file)
  }

  lemma PlanIsFile(items: seq<Item>, quote: byte, file: seq<byte>)
    requires Sends(items, quote, file) && KTrans(quote) == quote
    ensures File(items, DEFAULT_LINE, EMPTY_DECODER) == Decoder(false, file)
  {
    var line := SendLine(items[0].data);
    OfferTaken(items[0].data, quote);
    FileIsPayload(items[1..], line, EMPTY_DECODER);
    assert Payload(items) == [] + Payload(items[1..]) == Payload(items[1..]);
    UnquoteInvertsQuote(quote, EMPTY_DECODER, file);
    assert [] + file == file;
  }

  /** Memory from `start` on holds the file, and nothing below has changed. */
  ghost predicate FileAt(mem': map<nat, byte>, mem: map<nat, byte>, start: nat, file: seq<byte>) {
    && (forall i :: 0 <= i < |file| ==> start + i in mem' && mem'[start + i] == file[i])
    && forall a :: a in mem && a < start ==> a in mem' && mem'[a] == mem[a]
  }

  /** The download is over, memory holds the file, and the size is the file's. */
  ghost predicate Loaded(s: State, mem: map<nat, byte>, start: nat, file: seq<byte>) {
    s.phase == Done && s.store.addr - start == |file| && FileAt(s.store.mem, mem, start, file)
  }

  lemma BookLoaded(s0: State, s: State, start: nat, b: Book, file: seq<byte>)
    requires Matches(s, start, b) && b.phase == Done && b.cur == Decoder(false, file)
    requires Preserves(s0, s) && s0.mark.addr == start
    ensures Loaded(s, s0.store.mem, start, file)
  {
  }

  lemma PlanArrives(items: seq<Item>, gs: seq<seq<Attempt>>, quote: byte, file: seq<byte>)
    requires |gs| == |items| && forall i :: 0 <= i < |gs| ==> Group(items[i], gs[i])
    requires Sends(items, quote, file) && KTrans(quote) == quote
    ensures forall i :: 0 <= i < |Flatten(gs)| ==> !Flatten(gs)[i].Partial?
    ensures var b := Account(EMPTY_BOOK, Flatten(gs)); b.cur == Decoder(false, file) && b.phase == Done
  {
    Delivery(EMPTY_BOOK, items, gs);
    PlanIsFile(items, quote, file);
  }

  lemma StreamLoaded(mem: map<nat, byte>, start: nat, parms: seq<byte>, input: seq<byte>, file: seq<byte>)
    requires |parms| == SEND_DATA_SIZE && Settled(input)
    requires var b := Account(EMPTY_BOOK, Attempts(input)); b.cur == Decoder(false, file) && b.phase == Done
    ensures Loaded(Run(Initial(mem, start, parms), input, |input|), mem, start, file)
  {
    var s, b := Initial(mem, start, parms), Account(EMPTY_BOOK, Attempts(input));
    PrefixSafety(s, input, 0, |input|);
    MachineKeepsBook(s, start, EMPTY_BOOK, input);
    BookLoaded(s, Run(s, input, |input|), start, b, file);
  }

  /**
   End to end: a stream whose attempts fall into groups, one for each packet of the sender's plan,
   leaves exactly the file in memory.
   */
  lemma FileArrives(mem: map<nat, byte>, start: nat, parms: seq<byte>, input: seq<byte>,
                    items: seq<Item>, gs: seq<seq<Attempt>>, quote: byte, file: seq<byte>)
    requires |parms| == SEND_DATA_SIZE && Settled(input) && Attempts(input) == Flatten(gs)
    requires |gs| == |items| && forall i :: 0 <= i < |gs| ==> Group(items[i], gs[i])
    requires Sends(items, quote, file) && KTrans(quote) == quote
    ensures Loaded(Run(Initial(mem, start, parms), input, |input|), mem, start, file)
  {
    PlanArrives(items, gs, quote, file);
    StreamLoaded(mem, start, parms, input, file);
  }

  // ----- when an acknowledged packet is lost

  /**
   After a packet is acknowledged, noise and errors `gap` come before the header of a packet with
   another number. The acknowledged data is kept exactly if no error fell before the sequence
   number (or the packet had nothing to add).
   */
  lemma AcknowledgedKeptIff(b: Book, p: Attempt, gap: seq<Attempt>, next: Attempt)
    requires p.Whole? && (next.Late? || next.Whole?) && next.n != p.n
    requires forall i :: 0 <= i < |gap| ==> gap[i].Noise? || gap[i].Early?
    ensures var acked := Enter(b, p);
            Enter(Account(acked, gap), next).kept == acked.cur <==>
            acked.cur == acked.kept || forall i :: 0 <= i < |gap| ==> !gap[i].Early?
  {
    GapEffect(Enter(b, p), gap);
  }

  lemma {:induction false} GapEffect(b: Book, gap: seq<Attempt>)
    requires forall i :: 0 <= i < |gap| ==> gap[i].Noise? || gap[i].Early?
    ensures var r := Account(b, gap);
            && r.kept == b.kept && r.lastN == b.lastN
            && r.cur == if exists i :: 0 <= i < |gap| && gap[i].Early? then b.kept else b.cur
    decreases gap
  {
    if gap != [] {
      GapEffect(Enter(b, gap[0]), gap[1..]);
      if gap[0].Early? {
        assert exists i :: 0 <= i < |gap| && gap[i].Early?;
      } else if exists i :: 0 <= i < |gap[1..]| && gap[1..][i].Early? {
        var i :| 0 <= i < |gap[1..]| && gap[1..][i].Early?;
        assert gap[i + 1].Early?;
      } else {
        assert forall i :: 0 <= i < |gap| ==> gap[i] == if i == 0 then gap[0] else gap[1..][i - 1];
      }
    }
  }
}
