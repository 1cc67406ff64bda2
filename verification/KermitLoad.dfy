/** The download as a whole: the receiver, on a stream that carries a file, leaves the file in memory. */
module KermitLoad {
  import opened KermitCodec
  import opened KermitMachine
  import opened KermitLedger
  import opened KermitDelivery
  import opened KermitReceiver
  import opened Octets

  /** The attempts of the stream fall into groups, one for each packet of a sender's plan for the file. */
  ghost predicate Carried(input: seq<byte>, items: seq<Item>, gs: seq<seq<Attempt>>, quote: byte, file: seq<byte>) {
    && Settled(input) && Attempts(input) == Flatten(gs)
    && |gs| == |items| && (forall i :: 0 <= i < |gs| ==> Group(items[i], gs[i]))
    && Sends(items, quote, file) && KTrans(quote) == quote
  }

  lemma StoppedWithFile(mem: map<nat, byte>, start: nat, parms: seq<byte>, input: seq<byte>, pos: nat,
                        items: seq<Item>, gs: seq<seq<Attempt>>, quote: byte, file: seq<byte>)
    requires |parms| == SEND_DATA_SIZE && Carried(input, items, gs, quote, file) && pos <= |input|
    requires pos == |input| || Run(Initial(mem, start, parms), input, pos).phase in {Done, Aborted}
    ensures Loaded(Run(Initial(mem, start, parms), input, pos), mem, start, file)
  {
    var s := Initial(mem, start, parms);
    StoppedIsEnd(s, Run(s, input, pos), input, pos);
    FileArrives(mem, start, parms, input, items, gs, quote, file);
  }

  /** How the receiver returns in state `s`. */
  ghost predicate Returns(o: Outcome, s: State, start: nat) {
    match o
    case Waiting => s.phase !in {Done, Aborted}
    case Cancelled => s.phase == Aborted
    case Received(size) => s.phase == Done && start + size == s.store.addr
  }

  lemma ReturnsFile(o: Outcome, s: State, mem: map<nat, byte>, start: nat, file: seq<byte>)
    requires Loaded(s, mem, start, file) && Returns(o, s, start)
    ensures o == Received(|file|) && FileAt(s.store.mem, mem, start, file)
  {
  }

  /** The receiver returns the size of the file, with the file in memory. */
  method LoadSerialBin(input: seq<byte>, mem: map<nat, byte>, start: nat, signedChar: bool,
                       ghost items: seq<Item>, ghost gs: seq<seq<Attempt>>, ghost quote: byte, ghost file: seq<byte>)
    returns (o: Outcome, mem': map<nat, byte>)
    requires Carried(input, items, gs, quote, file)
    ensures o == Received(|file|) && FileAt(mem', mem, start, file)
  {
    var r := new Receiver(input, mem, start, signedChar);
    ghost var parms := r.sendParms[..];
    o := r.KRecv();
    mem' := r.data.mem;
    ghost var s := Run(Initial(mem, start, parms), input, r.pos);
    assert mem' == s.store.mem && Returns(o, s, start);
    StoppedWithFile(mem, start, parms, input, r.pos, items, gs, quote, file);
    ReturnsFile(o, s, mem, start, file);
  }
}
