/**
 `k_recv` and its helpers, in the form of the source: static variables updated one character at a
 time, reply packets built in place. Each method is proved to follow the machine of KermitMachine.
 The serial line is a sequence of characters; running out of it stands for waiting in `getc`.
 */
module KermitReceiver {
  import opened KermitCodec
  import opened KermitMachine
  import opened KermitPackets
  import opened Octets

  /** How reading went: the line is quiet, the packet failed, or go on. */
  datatype Progress = Quiet | Failed | Go

  datatype Locals = Locals(kState: byte, kStateSaved: byte, sum: int, length: int, n: int, lastN: int, lenHi: int)

  datatype Outcome = Waiting | Cancelled | Received(size: nat)

  class Receiver {
    // the serial line
    const input: seq<byte>
    var pos: nat
    var sent: seq<seq<byte>> // one element for each packet sent
    const signedChar: bool

    var his: Line // his_eol, his_pad_count, his_pad_char, his_quote
    const binStartAddress: nat
    var data: Store // memory, os_data_addr, k_data_escape
    var saved: Mark // os_data_addr_saved, k_data_escape_saved

    // packet buffers
    const sendParms: array<byte>
    var sendPtr: nat
    const ab: array<byte>

    var k: Locals // of k_recv

    // where k_recv is, and what it has replied
    ghost var phase: Phase
    ghost var replies: seq<Reply>
    ghost const trace: seq<State>

    /** The variables are those of the machine; between packets the parameter pointer is idle. */
    ghost predicate Agrees(m: State)
      reads this, sendParms
    {
      && phase == m.phase
      && data == m.store && saved == m.mark && his == m.line
      && k == Locals(m.kState, m.kStateSaved, m.sum, m.length, m.n, m.lastN, m.lenHi)
      && sendParms[..] == m.parms && (if phase == Wait then m.ptr == 0 else sendPtr == m.ptr)
      && replies == m.sent
    }

    /** The buffers and counters are in range. */
    ghost predicate Shaped()
      reads this
    {
      && sendParms.Length == SEND_DATA_SIZE && ab.Length == 24 && sendParms != ab
      && sendPtr < SEND_DATA_SIZE && 0 <= k.n < 224
    }

    /** What was put on the line is the wire form of the replies. */
    ghost predicate Wired()
      reads this
    {
      |sent| == |replies| && forall i {:trigger sent[i]} :: 0 <= i < |sent| ==> sent[i] == Wire(replies[i])
    }

    /** The machine, fed with what has been read, is here. */
    ghost predicate Synced()
      reads this, sendParms
    {
      && Shaped() && Wired() && pos <= |input| && |trace| == |input| + 1
      && Agrees(trace[pos])
    }

    constructor (input: seq<byte>, mem: map<nat, byte>, start: nat, signedChar: bool)
      ensures Shaped() && pos == 0 && sent == [] && replies == []
      ensures this.input == input && data.mem == mem && binStartAddress == start
      ensures fresh(sendParms) && fresh(ab)
      ensures trace == Trace(Initial(mem, start, sendParms[..]), input)
    {
      this.input, binStartAddress, this.signedChar := input, start, signedChar;
      pos, sent, replies := 0, [], [];
      sendPtr, his, data, saved := 0, DEFAULT_LINE, Store(mem, 0, false), Mark(0, false);
      k := Locals(0, 0, 0, 0, 0, 0, 0);
      phase := Wait;
      var p := new byte[SEND_DATA_SIZE];
      sendParms := p;
      ab := new byte[24];
      trace := Trace(Initial(mem, start, p[..]), input);
    }

    method GetC() returns (ok: bool, c: byte)
      requires pos <= |input|
      modifies this`pos
      ensures ok == (old(pos) < |input|)
      ensures pos == if ok then old(pos) + 1 else old(pos)
      ensures ok ==> c == input[old(pos)]
    {
      ok, c := pos < |input|, 0;
      if ok {
        c, pos := input[pos], pos + 1;
      }
    }

    method SendPad() returns (text: seq<byte>)
      ensures text == Pads(his)
    {
      var count := his.padCount as int;
      text := [];
      while count > 0
        invariant 0 <= count <= his.padCount
        invariant text == Pads(his)[..his.padCount - count]
      {
        text := text + [his.padChar];
        count := count - 1;
      }
    }

    /** `chk1(&a_b[1])`: the block check of the characters up to the NUL at index `z`. */
    method Chk1(ghost z: nat) returns (r: int)
      requires 1 <= z < ab.Length && ab[z] == 0 && forall i :: 1 <= i < z ==> ab[i] != 0
      ensures r == Check6(Sum(ab[1..z]))
    {
      var total, i := 0, 1;
      while ab[i] != 0
        invariant 1 <= i <= z && total == CharSum(ab[1..i], signedChar)
        decreases z - i
      {
        assert ab[1..i + 1][..i - 1] == ab[1..i];
        total := total + CharValue(ab[i], signedChar);
        i := i + 1;
      }
      CheckIgnoresSignedness(ab[1..z], signedChar);
      r := Check6(total);
    }

    method S1SendPacket(ghost z: nat)
      requires z < ab.Length && ab[z] == 0 && forall i :: 0 <= i < z ==> ab[i] != 0
      modifies this`sent
      ensures sent == old(sent) + [Pads(his) + ab[..z]]
    {
      var text := SendPad();
      var i := 0;
      while ab[i] != 0
        invariant 0 <= i <= z && text == Pads(his) + ab[..i]
        decreases z - i
      {
        assert ab[..i + 1] == ab[..i] + [ab[i]];
        text := text + [ab[i]];
        i := i + 1;
      }
      sent := sent + [text];
    }

    /** The characters before the block check, and a NUL in its place. */
    method PutHeader(len: int, kind: byte)
      requires Shaped() && 3 <= len <= 16 && kind != 0
      requires forall i :: 4 <= i <= len ==> ab[i] != 0
      modifies ab
      ensures ab[1..len + 1] == [ToChar(len), ToChar(k.n), kind] + old(ab[4..len + 1])
      ensures ab[0] == START_CHAR && ab[len + 1] == 0
      ensures forall i :: 0 <= i <= len ==> ab[i] != 0
    {
      ab[0] := START_CHAR;
      ab[1] := ToChar(len);
      ab[2] := ToChar(k.n);
      ab[3] := kind;
      ab[len + 1] := 0;
    }

    /** The block check, the end of line and the final NUL. */
    method PutTrailer(len: int)
      requires Shaped() && 3 <= len <= 16 && ab[len + 1] == 0 && forall i :: 0 <= i <= len ==> ab[i] != 0
      modifies ab
      ensures forall i :: 0 <= i <= len ==> ab[i] == old(ab[i])
      ensures ab[len + 1] == ToChar(Check6(Sum(old(ab[1..len + 1])))) != 0
      ensures ab[len + 2] == his.eol && ab[len + 3] == 0
    {
      var check := Chk1(len + 1);
      ab[len + 1] := ToChar(check);
      ab[len + 2] := his.eol;
      ab[len + 3] := 0;
    }

    /** Close the packet whose data are at `a_b[4..length+1]`. */
    method BuildPacket(len: int, kind: byte)
      requires Shaped() && 3 <= len <= 16 && kind != 0
      requires forall i :: 4 <= i <= len ==> ab[i] != 0
      modifies ab
      ensures ab[..len + 2] == Packet(k.n, kind, old(ab[4..len + 1]))
      ensures forall i :: 0 <= i < len + 2 ==> ab[i] != 0
      ensures ab[len + 2] == his.eol && ab[len + 3] == 0
    {
      ghost var text := ab[4..len + 1];
      PutHeader(len, kind);
      ghost var body := ab[1..len + 1];
      assert body == [ToChar(|text| + 3), ToChar(k.n), kind] + text;
      PutTrailer(len);
      assert ab[1..len + 1] == body;
      assert ab[..len + 2] == [START_CHAR] + ab[1..len + 1] + [ab[len + 1]];
    }

    method FinishPacket(len: int, kind: byte)
      requires Shaped() && 3 <= len <= 16 && kind != 0 && Wired()
      requires forall i :: 4 <= i <= len ==> ab[i] != 0
      modifies ab, this`sent, this`replies
      ensures replies == old(replies) + [Reply(his, k.n, kind, old(ab[4..len + 1]))]
      ensures Wired()
    {
      ghost var r := Reply(his, k.n, kind, ab[4..len + 1]);
      BuildPacket(len, kind);
      ghost var z := if his.eol == 0 then len + 2 else len + 3;
      assert ab[..z] == ab[..len + 2] + if his.eol == 0 then [] else [his.eol];
      S1SendPacket(z);
      assert sent[|sent| - 1] == Wire(r);
      replies := replies + [r];
    }

    method SendAck()
      requires Shaped() && Wired()
      modifies ab, this`sent, this`replies
      ensures replies == old(replies) + [Reply(his, k.n, ACK_TYPE, [])] && Wired()
    {
      FinishPacket(3, ACK_TYPE);
      assert old(ab[4..4]) == [];
    }

    method SendNack()
      requires Shaped() && Wired()
      modifies ab, this`sent, this`replies
      ensures replies == old(replies) + [Reply(his, k.n, NACK_TYPE, [])] && Wired()
    {
      FinishPacket(3, NACK_TYPE);
      assert old(ab[4..4]) == [];
    }

    /** The first six parameters of `handle_send_packet`, the ones that are remembered. */
    method RememberParms(total: nat) returns (len: int)
      requires Shaped() && total <= SEND_DATA_SIZE - 2
      modifies ab, this`his
      ensures len == (if total >= 6 then 9 else 3 + total)
      ensures forall i :: 4 <= i <= len ==> ab[i] == ANSWERS[i - 4]
      ensures his == ParmsLine(sendParms[..], total)
    {
      his := DEFAULT_LINE;
      len := 3;
      var bytes := total as int;
      label parms: {
        if bytes <= 0 { break parms; }
        bytes := bytes - 1;
        len := len + 1;
        ab[len] := ToChar(94); // MAXL
        if bytes <= 0 { break parms; }
        bytes := bytes - 1;
        len := len + 1;
        ab[len] := ToChar(1); // TIME
        if bytes <= 0 { break parms; }
        bytes := bytes - 1;
        his := his.(padCount := UnToChar(sendParms[2]));
        len := len + 1;
        ab[len] := ToChar(0); // NPAD
        if bytes <= 0 { break parms; }
        bytes := bytes - 1;
        his := his.(padChar := KTrans(sendParms[3]));
        len := len + 1;
        ab[len] := 0x40; // PADC
        if bytes <= 0 { break parms; }
        bytes := bytes - 1;
        his := his.(eol := UnToChar(sendParms[4]));
        len := len + 1;
        ab[len] := ToChar(END_CHAR); // EOL
        if bytes <= 0 { break parms; }
        bytes := bytes - 1;
        his := his.(quote := sendParms[5]);
        len := len + 1;
        ab[len] := 0x23; // QCTL
      }
    }

    /** The parameters that are only answered; `bytes` are left. */
    method AnswerParms(bytes: nat) returns (len: int)
      requires Shaped()
      modifies ab
      ensures len == (if bytes >= 4 then 16 else 9 + bytes)
      ensures forall i :: 4 <= i < 10 ==> ab[i] == old(ab[i])
      ensures forall i :: 10 <= i <= len ==> ab[i] == ANSWERS[i - 4]
    {
      len := 9;
      var left := bytes as int;
      label parms: {
        if left <= 0 { break parms; }
        left := left - 1;
        len := len + 1;
        ab[len] := 0x4E; // QBIN
        if left <= 0 { break parms; }
        left := left - 1;
        len := len + 1;
        ab[len] := 0x31; // CHKT
        if left <= 0 { break parms; }
        left := left - 1;
        len := len + 1;
        ab[len] := 0x4E; // REPT
        if left <= 0 { break parms; }
        left := left - 1;
        len := len + 1;
        ab[len] := ToChar(2); // CAPAS
        len := len + 1;
        ab[len] := ToChar(0);
        len := len + 1;
        ab[len] := ToChar(94);
        len := len + 1;
        ab[len] := ToChar(94);
      }
    }

    method Answer() returns (len: int)
      requires Shaped()
      modifies ab, this`his, this`sendPtr
      ensures Shaped()
      ensures var bytes := Answered(old(sendPtr));
              && his == ParmsLine(sendParms[..], bytes)
              && 3 <= len <= 16 && ab[4..len + 1] == AnswerData(bytes)
    {
      if sendPtr == SEND_DATA_SIZE - 1 {
        sendPtr := sendPtr - 1;
      }
      var total := sendPtr;
      len := RememberParms(total);
      if total >= 6 {
        len := AnswerParms(total - 6);
      }
      assert ab[4..len + 1] == AnswerData(total);
    }

    method HandleSendPacket()
      requires Shaped() && Wired()
      modifies ab, this`his, this`sendPtr, this`sent, this`replies
      ensures Shaped() && Wired()
      ensures var bytes := Answered(old(sendPtr));
              && his == ParmsLine(sendParms[..], bytes)
              && replies == old(replies) + [Reply(his, k.n, ACK_TYPE, AnswerData(bytes))]
    {
      var len := Answer();
      ghost var data := ab[4..len + 1];
      AnswersPrintable(Answered(old(sendPtr)));
      assert forall i :: 4 <= i <= len ==> ab[i] == data[i - 4];
      FinishPacket(len, ACK_TYPE);
    }

    // ----- k_data_*, os_data_* and bin_data_*

    method KDataSave()
      modifies this`saved
      ensures saved == Mark(data.addr, data.escape)
    {
      saved := Mark(data.addr, data.escape);
    }

    method KDataRestore()
      modifies this`data
      ensures data == Store(old(data).mem, saved.addr, saved.escape)
    {
      data := data.(addr := saved.addr, escape := saved.escape);
    }

    method BinDataChar(c: byte)
      modifies this`data
      ensures data == Write(old(data), c)
    {
      data := data.(mem := data.mem[data.addr := c], addr := data.addr + 1);
    }

    method KDataChar(c: byte)
      modifies this`data
      ensures data == Put(his.quote, old(data), c)
    {
      if data.escape {
        BinDataChar(KTrans(c));
        data := data.(escape := false);
      } else if c == his.quote {
        data := data.(escape := true);
      } else {
        BinDataChar(c);
      }
    }

    // ----- the packet loop

    method PacketError()
      requires Shaped() && Wired()
      modifies ab, this`k, this`data, this`sent, this`replies, this`phase
      ensures Shaped() && Wired()
      ensures k == old(k).(kState := k.kStateSaved) && data == Store(old(data).mem, saved.addr, saved.escape) &&
              phase == Wait
      ensures replies == old(replies) + [Reply(his, k.n, NACK_TYPE, [])]
    {
      k := k.(kState := k.kStateSaved);
      KDataRestore();
      SendNack();
      assert sendParms[..] == old(sendParms[..]);
      phase := Wait;
    }

    /** Wait for the start of a packet. */
    method AwaitStart() returns (r: Progress)
      requires IsTrace(trace, input) && Synced() && phase == Wait && sendPtr == 0
      modifies this`pos, this`k, this`phase
      ensures Synced() && pos >= old(pos)
      ensures r == Go ==> pos > old(pos)
      ensures phase == (match r case Quiet => Wait case Failed => Aborted case Go => Len)
      ensures r == Quiet ==> pos == |input|
    {
      while true
        invariant Synced() && phase == Wait && sendPtr == 0 && pos >= old(pos)
        decreases |input| - pos
      {
        var ok, c := GetC();
        if !ok {
          return Quiet;
        }
        NextWait(trace, input, pos - 1);
        if c == START_CHAR {
          k := k.(sum := 0);
          phase := Len;
          return Go;
        } else if c == ETX_CHAR {
          phase := Aborted;
          return Failed;
        }
      }
    }

    /** `getc`, and the packet error for a control character. */
    method NextChar() returns (r: Progress, c: byte)
      requires IsTrace(trace, input) && Synced() && phase !in {Wait, End, Done, Aborted}
      modifies this`pos, ab, this`k, this`data, this`sent, this`replies, this`phase
      ensures pos >= old(pos)
      ensures r == Go ==> Shaped() && Wired() && 0 < pos <= |input| < |trace| && Agrees(trace[pos - 1])
      ensures r == Go ==> phase == old(phase) && k == old(k)
      ensures r == Go ==> !IsControl(c) && c == input[pos - 1]
      ensures r == Failed ==> Synced() && phase == Wait
      ensures r == Quiet ==> Synced() && phase == old(phase) && pos == |input|
    {
      var ok;
      r := Go;
      ok, c := GetC();
      if !ok {
        r := Quiet;
      } else {
        if IsControl(c) {
          NextFail(trace, input, pos - 1);
          PacketError();
          r := Failed;
        }
      }
    }

    method ReadLength() returns (r: Progress)
      requires IsTrace(trace, input) && Synced() && phase == Len
      modifies this, ab
      ensures Synced() && pos >= old(pos)
      ensures phase == (match r case Quiet => Len case Failed => Wait case Go => Seq)
      ensures r == Quiet ==> pos == |input| && phase !in {Wait, Done, Aborted}
    {
      var c;
      r, c := NextChar();
      if r == Go {
        NextLen(trace, input, pos - 1);
        k := k.(sum := k.sum + c, length := UnToChar(c));
        phase := Seq;
      }
    }

    /** A repeated number restores the previous state, a new one checkpoints the download. */
    method CheckSequence(ghost m: State)
      requires Shaped() && Agrees(m)
      modifies this`k, this`data, this`saved
      ensures Agrees(Checkpoint(m))
    {
      if k.n == k.lastN {
        k := k.(kState := k.kStateSaved);
        KDataRestore();
      } else {
        k := k.(lastN := k.n, kStateSaved := k.kState);
        KDataSave();
      }
    }

    /** The sequence number; a repeated one goes back to the checkpoint. */
    method ReadSequence() returns (r: Progress)
      requires IsTrace(trace, input) && Synced() && phase == Seq
      modifies this, ab
      ensures Synced() && pos >= old(pos)
      ensures phase == (match r case Quiet => Seq case Failed => Wait case Go => Kind)
      ensures r == Quiet ==> pos == |input| && phase !in {Wait, Done, Aborted}
    {
      var c;
      r, c := NextChar();
      if r == Go {
        k := k.(sum := k.sum + c, n := UnToChar(c), length := k.length - 1);
        phase := Kind;
        NextSeq(trace, input, pos - 1);
        CheckSequence(Numbered(trace[pos - 1], c));
      }
    }

    method ReadKind() returns (r: Progress)
      requires IsTrace(trace, input) && Synced() && phase == Kind
      modifies this, ab
      ensures Synced() && pos >= old(pos)
      ensures r == Quiet ==> phase == Kind && pos == |input|
      ensures r == Failed ==> phase == Wait
      ensures r == Go ==> phase == (if k.length == -2 then ExtHi else BodyPhase(k.length))
    {
      var c;
      r, c := NextChar();
      if r == Go {
        NextKind(trace, input, pos - 1);
        k := k.(sum := k.sum + c, kState := c, length := k.length - 1);
        phase := if k.length == -2 then ExtHi else BodyPhase(k.length);
      }
    }

    /** The two length characters of the long form. */
    method ReadExtendedLength() returns (r: Progress)
      requires IsTrace(trace, input) && Synced() && phase == ExtHi
      modifies this, ab
      ensures Synced() && pos >= old(pos)
      ensures r == Quiet ==> pos == |input| && phase !in {Wait, Done, Aborted}
      ensures r == Failed ==> phase == Wait
      ensures r == Go ==> phase == ExtCheck
    {
      var c;
      r, c := NextChar();
      if r == Go {
        NextHigh(trace, input, pos - 1);
        k := k.(sum := k.sum + c, lenHi := UnToChar(c));
        phase := ExtLo;
        r := ReadLow();
      }
    }

    method ReadLow() returns (r: Progress)
      requires IsTrace(trace, input) && Synced() && phase == ExtLo
      modifies this, ab
      ensures Synced() && pos >= old(pos)
      ensures r == Quiet ==> pos == |input| && phase !in {Wait, Done, Aborted}
      ensures r == Failed ==> phase == Wait
      ensures r == Go ==> phase == ExtCheck
    {
      var c;
      r, c := NextChar();
      if r == Go {
        NextLow(trace, input, pos - 1);
        k := k.(sum := k.sum + c, length := k.lenHi * 95 + UnToChar(c));
        phase := ExtCheck;
      }
    }

    /** A check character: that of the long header, or the last one of the packet. */
    method ReadCheck(header: bool) returns (r: Progress)
      requires IsTrace(trace, input) && Synced() && phase == if header then ExtCheck else Check
      modifies this, ab
      ensures Synced() && pos >= old(pos)
      ensures r == Quiet ==> pos == |input| && phase !in {Wait, Done, Aborted}
      ensures r == Failed ==> phase == Wait
      ensures r == Go ==> phase == if header then BodyPhase(k.length) else End
    {
      var c;
      r, c := NextChar();
      if r == Go {
        if c != ToChar(Check6(k.sum)) {
          NextFail(trace, input, pos - 1);
          PacketError();
          return Failed;
        }
        NextCheck(trace, input, pos - 1);
        if header {
          k := k.(sum := k.sum + c);
          phase := BodyPhase(k.length);
        } else {
          phase := End;
        }
      }
    }

    /** Pass data on to memory, or send parameters to their buffer. */
    method AbsorbChar(c: byte, ghost m: State)
      requires Shaped() && Agrees(m) && Sound(m) && phase != Wait
      modifies this`data, this`sendPtr, sendParms
      ensures Shaped() && Agrees(Absorb(m, c))
    {
      if k.kState == DATA_TYPE {
        KDataChar(c);
      } else if k.kState == SEND_TYPE {
        sendParms[sendPtr] := c;
        if sendPtr + 1 < SEND_DATA_SIZE {
          sendPtr := sendPtr + 1;
        }
        assert sendParms[..] == old(sendParms[..][sendPtr := c]);
      }
    }

    method ReadDataChar() returns (r: Progress)
      requires IsTrace(trace, input) && Synced() && phase == Data
      modifies this, ab, sendParms
      ensures Synced() && pos >= old(pos)
      ensures r == Quiet ==> pos == |input| && phase !in {Wait, Done, Aborted}
      ensures r == Failed ==> phase == Wait
      ensures r == Go ==> phase == BodyPhase(k.length) && k.length == old(k.length) - 1
    {
      var c;
      r, c := NextChar();
      if r == Go {
        k := k.(sum := k.sum + c, length := k.length - 1);
        phase := BodyPhase(k.length);
        NextData(trace, input, pos - 1);
        AbsorbChar(c, Counted(trace[pos - 1], c));
      }
    }

    method ReadData() returns (r: Progress)
      requires IsTrace(trace, input) && Synced() && phase == BodyPhase(k.length)
      modifies this, ab, sendParms
      ensures Synced() && pos >= old(pos)
      ensures r == Quiet ==> pos == |input| && phase !in {Wait, Done, Aborted}
      ensures r == Failed ==> phase == Wait
      ensures r == Go ==> phase == Check
    {
      r := Go;
      while k.length > 1
        invariant Synced() && r == Go && phase == BodyPhase(k.length) && pos >= old(pos)
      {
        r := ReadDataChar();
        if r != Go {
          return;
        }
      }
    }

    /** From the start character to the last check character. */
    method ReadPacket() returns (r: Progress)
      requires IsTrace(trace, input) && Synced() && phase == Len
      modifies this, ab, sendParms
      ensures Synced() && pos >= old(pos)
      ensures r == Quiet ==> pos == |input| && phase !in {Wait, Done, Aborted}
      ensures r == Failed ==> phase == Wait
      ensures r == Go ==> phase == End
    {
      r := ReadLength();
      if r != Go { return; }
      r := ReadSequence();
      if r != Go { return; }
      r := ReadKind();
      if r != Go { return; }
      if k.length == -2 {
        r := ReadExtendedLength();
        if r != Go { return; }
        r := ReadCheck(true);
        if r != Go { return; }
      }
      r := ReadData();
      if r != Go { return; }
      r := ReadCheck(false);
    }

    /** Acknowledge the packet, as its type asks for. */
    method AcceptPacket(ghost m: State) returns (done: bool)
      requires Shaped() && Wired() && phase == End && Agrees(m) && Sound(m)
      modifies this, ab
      ensures Shaped() && Wired() && pos == old(pos)
      ensures phase == if done then Done else Wait
      ensures Agrees(Accept(m))
    {
      done := k.kState == BREAK_TYPE;
      if k.kState == SEND_TYPE {
        HandleSendPacket();
      } else {
        SendAck();
      }
      assert sendParms[..] == old(sendParms[..]);
      phase := if k.kState == BREAK_TYPE then Done else Wait;
    }

    /** The end character decides between an error and an acknowledgement. */
    method ReadEnd() returns (r: Progress, done: bool)
      requires IsTrace(trace, input) && Synced() && phase == End
      modifies this, ab
      ensures Synced() && pos >= old(pos)
      ensures r == Quiet ==> pos == |input| && phase == End
      ensures r != Quiet ==> phase == if done then Done else Wait
    {
      var ok, c := GetC();
      r, done := Go, false;
      if !ok {
        r := Quiet;
        return;
      }
      if c != END_CHAR {
        NextFail(trace, input, pos - 1);
        PacketError();
        r := Failed;
      } else {
        NextEnd(trace, input, pos - 1);
        done := AcceptPacket(trace[pos - 1]);
      }
    }

    /** One turn of the main loop. */
    method OnePacket() returns (r: Progress, done: bool)
      requires IsTrace(trace, input) && Synced() && phase == Wait
      modifies this, ab, sendParms
      ensures Synced() && pos >= old(pos)
      ensures r == Quiet ==> pos == |input| && phase !in {Done, Aborted}
      ensures r == Failed ==> phase == Aborted
      ensures r == Go ==> phase == if done then Done else Wait
      ensures r == Go ==> pos > old(pos)
    {
      done := false;
      sendPtr := 0;
      r := AwaitStart();
      if r != Go { return; }
      r := ReadPacket();
      if r == Quiet { return; }
      if r == Go {
        r, done := ReadEnd();
        if r == Quiet { return; }
      }
      r := Go;
    }

    /** The assignments at the head of `k_recv`. */
    method InitProtocol()
      requires Shaped() && pos == 0 && sent == [] && replies == []
      requires IsTrace(trace, input) && trace[0] == Initial(data.mem, binStartAddress, sendParms[..])
      modifies this
      ensures Synced() && phase == Wait && pos == 0
    {
      his := DEFAULT_LINE;
      data := Store(data.mem, binStartAddress, false);
      KDataSave();
      k := Locals(0, 0, 0, 0, 0, -1, 0);
      sendPtr := 0;
      phase := Wait;
    }

    /**
     The download. At every return the memory, the replies and the size are those of the machine
     on the characters read; it returns only when cancelled, finished or out of characters.
     */
    method KRecv() returns (o: Outcome)
      requires Shaped() && pos == 0 && sent == [] && replies == []
      requires trace == Trace(Initial(data.mem, binStartAddress, sendParms[..]), input)
      modifies this, ab, sendParms
      ensures pos <= |input| && Wired()
      ensures var s := Run(Initial(old(data.mem), binStartAddress, old(sendParms[..])), input, pos);
              && data.mem == s.store.mem && replies == s.sent
              && (match o
                  case Waiting => pos == |input| && s.phase !in {Done, Aborted}
                  case Cancelled => s.phase == Aborted
                  case Received(size) => s.phase == Done && binStartAddress + size == s.store.addr)
    {
      ghost var s0 := Initial(data.mem, binStartAddress, sendParms[..]);
      InitProtocol();
      var done := false;
      while !done
        invariant Synced() && phase == (if done then Done else Wait)
        decreases |input| - pos, !done
      {
        var r;
        r, done := OnePacket();
        if r == Quiet {
          return Waiting;
        }
        if r == Failed {
          return Cancelled;
        }
      }
      PrefixSafety(s0, input, 0, pos);
      o := Received(data.addr - binStartAddress);
    }
  }
}
