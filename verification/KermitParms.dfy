/**
 The negotiation that opens a Kermit download, from the sender's side: how it encodes its parameters, that the
 receiver takes each of them for what it is, and that its answer is the same encoding of its own offer.
 */
module KermitParms {
  import opened KermitCodec
  import opened KermitMachine
  import opened KermitLedger
  import opened Octets

  /** Longest packet, seconds to wait, padding, end of line, and the character that quotes control characters. */
  datatype Proposal = Proposal(maxl: byte, time: byte, npad: byte, padc: byte, eol: byte, qctl: byte) {

    /** Numbers are printable with 32 added, and the padding is a control character. */
    predicate Valid() {
      maxl <= 94 && time <= 94 && npad <= 94 && eol <= 94 && (padc < 32 || padc == 127)
    }
  }

  /** The sixth bit flipped: the printable partner of a control character. */
  function Ctl(c: byte): byte {
    if c / 64 % 2 == 1 then c - 64 else c + 64
  }

  /** The first six parameters of a send-initiate packet, in their order. */
  function SendInit(p: Proposal): (data: seq<byte>)
    requires p.Valid()
    ensures |data| == 6
  {
    [32 + p.maxl, 32 + p.time, 32 + p.npad, Ctl(p.padc), 32 + p.eol, p.qctl]
  }

  lemma CtlTaken(c: byte)
    requires c < 32 || c == 127
    ensures KTrans(Ctl(c)) == c
  {
    if c < 32 {
      KTransLow(c + 64, 0, c + 64);
    }
  }

  /** However many of the parameters a packet carries, those are taken and the others have their defaults. */
  lemma ProposalTaken(p: Proposal, more: seq<byte>, k: nat)
    requires p.Valid() && k <= 6 + |more|
    ensures SendLine((SendInit(p) + more)[..k]) ==
            Line(if k >= 5 then p.eol else 13, if k >= 3 then p.npad else 0,
                 if k >= 4 then p.padc else 0, if k >= 6 then p.qctl else '#' as int)
  {
    var data := (SendInit(p) + more)[..k];
    assert forall i :: 0 <= i < k && i < 6 ==> data[i] == SendInit(p)[i];
    CtlTaken(p.padc);
  }

  /** The quote character that a packet asks for: the sixth parameter, or '#' if there is none. */
  predicate Offers(data: seq<byte>, quote: byte) {
    quote == if |data| >= 6 then data[5] else '#' as int
  }

  lemma SendInitOffers(p: Proposal, more: seq<byte>)
    requires p.Valid()
    ensures Offers(SendInit(p) + more, p.qctl)
  {
  }

  lemma OfferTaken(data: seq<byte>, quote: byte)
    requires Offers(data, quote)
    ensures SendLine(data).quote == quote
  {
  }

  /** What the receiver asks for in turn: 94 characters, 1 second, no padding, a carriage return and '#'. */
  const OFFER := Proposal(94, 1, 0, 0, 13, '#' as int)

  /** Behind the six: no eighth-bit quoting, one-character check, no repeat counts, and long packets of 94 * 95 + 94. */
  const CAPABILITIES: seq<byte> := ['N' as int, '1' as int, 'N' as int, 32 + 2, 32 + 0, 32 + 94, 32 + 94]

  /** The answer to `k` parameters looked at is that offer, as far as it was asked for. */
  lemma AnswerIsOffer(k: nat)
    ensures AnswerData(k) == (SendInit(OFFER) + CAPABILITIES)[..if k >= 10 then 13 else k]
  {
    assert ANSWERS == SendInit(OFFER) + CAPABILITIES;
  }

  /** How many parameters of a packet are answered: all but what overflows a buffer that holds 18. */
  lemma AnsweredIs(received: nat)
    ensures Answered(received) == if received <= 18 then received else 18
  {
  }

  /**
   The acknowledgement of a proposal goes out as the proposal asked: behind its padding, in the packet that
   carries the offer, and with its end of line.
   */
  lemma ProposalAnswered(b: Book, used: nat, n: byte, p: Proposal, more: seq<byte>)
    requires p.Valid()
    ensures var b' := Enter(b, Whole(used, n, SEND_TYPE, SendInit(p) + more));
            && b'.line == Line(p.eol, p.npad, p.padc, p.qctl) && |b'.sent| == |b.sent| + 1
            && Wire(b'.sent[|b.sent|]) ==
               seq(p.npad, _ => p.padc)
               + Packet(n, ACK_TYPE, (SendInit(OFFER) + CAPABILITIES)[..if |more| >= 4 then 13 else 6 + |more|])
               + if p.eol == 0 then [] else [p.eol]
  {
    var data := SendInit(p) + more;
    ProposalTaken(p, more, |data|);
    assert data[..|data|] == data;
    AnswersAsked(|more|);
    PadsAre(Line(p.eol, p.npad, p.padc, p.qctl), p.npad, p.padc);
  }

  lemma AnswersAsked(m: nat)
    ensures AnswerData(Answered(6 + m)) == (SendInit(OFFER) + CAPABILITIES)[..if m >= 4 then 13 else 6 + m]
  {
    AnswerIsOffer(Answered(6 + m));
  }

  lemma PadsAre(line: Line, npad: nat, padc: byte)
    requires line.padCount == npad && line.padChar == padc
    ensures Pads(line) == seq(npad, _ => padc)
  {
  }
}
