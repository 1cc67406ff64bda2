/**
 Saving memory as a stream of S-Records and loading such a stream back.
 */
module SRecordIO {
  import opened SRecord
  import opened Octets

  const HEADER := "S0030000FC"
  const TRAILER := "S70500000000FA"

  // ----- save_serial

  /** `n` bytes of memory from `a` on. */
  function Bytes(mem: nat -> byte, a: nat, n: nat): (bs: seq<byte>)
    ensures |bs| == n
  {
    seq(n, i requires 0 <= i < n => mem(a + i))
  }

  function RecordLen(n: nat): nat {
    if n < SREC_BYTES_PER_RECORD then n else SREC_BYTES_PER_RECORD
  }

  /** A data record: address and contents. */
  datatype Rec = Rec(a: nat, data: seq<byte>)

  /** The data records for `n` bytes from `a` on: 16 bytes each but for the last one. */
  function Chunks(mem: nat -> byte, a: nat, n: nat): (recs: seq<Rec>)
    ensures forall i :: 0 <= i < |recs| ==> 1 <= |recs[i].data| <= SREC_BYTES_PER_RECORD
    decreases n
  {
    if n == 0 then [] else [Rec(a, Bytes(mem, a, RecordLen(n)))] + Chunks(mem, a + RecordLen(n), n - RecordLen(n))
  }

  /** The lines are the texts of the records. */
  ghost predicate Rendered(lines: seq<string>, recs: seq<Rec>) {
    && |lines| == |recs|
    && forall i {:trigger lines[i]} :: 0 <= i < |lines| ==>
         |recs[i].data| <= 16 && lines[i] == Line(recs[i].a, recs[i].data)
  }

  /** A record of `k` bytes at address `a` fits the buffer of 2 * 16 + 16 characters. */
  predicate Fits(a: nat, k: nat) {
    Width(a) + 2 * k <= 40
  }

  /** With newline and NUL, that is the exact condition for the text. */
  lemma LineFitsIff(a: nat, data: seq<byte>)
    requires |data| <= 250
    ensures |Line(a, data)| + 2 <= 48 <==> Fits(a, |data|)
  {
  }

  /** The first full record that does not fit: nine digits make 49 characters. */
  lemma NineDigitsTooLong(data: seq<byte>)
    requires |data| == SREC_BYTES_PER_RECORD
    ensures |Line(TWO32, data)| + 2 == 49
  {
    CText.HexLength(TWO32, 8);
    CText.HexLength(TWO32, 9);
    CText.PowBounds();
    assert CText.Pow16(9) == 16 * CText.Pow16(8);
  }

  /** A full record fits exactly below 2^32. */
  lemma FullFitsIff(a: nat)
    ensures Fits(a, SREC_BYTES_PER_RECORD) <==> a < TWO32
  {
    WidthIs(a);
  }

  predicate AllFit(recs: seq<Rec>) {
    forall i :: 0 <= i < |recs| ==> Fits(recs[i].a, |recs[i].data|)
  }

  lemma AllFitCons(r: Rec, recs: seq<Rec>)
    ensures AllFit([r] + recs) <==> Fits(r.a, |r.data|) && AllFit(recs)
  {
    if AllFit([r] + recs) {
      assert ([r] + recs)[0] == r;
      forall i | 0 <= i < |recs| ensures Fits(recs[i].a, |recs[i].data|) {
        assert ([r] + recs)[i + 1] == recs[i];
      }
    }
  }

  /** The last full record starts below 2^32, and what is left behind it fits. */
  predicate SaveFits(a: nat, n: nat) {
    (n >= 16 ==> a + n - n % 16 - 16 < TWO32) && (n % 16 > 0 ==> Fits(a + n - n % 16, n % 16))
  }

  lemma SaveFitsNext(a: nat, n: nat)
    requires n >= 16
    ensures SaveFits(a, n) <==> a < TWO32 && SaveFits(a + 16, n - 16)
  {
    assert (n - 16) % 16 == n % 16;
    if n < 32 {
      assert n - n % 16 == 16;
    }
  }

  lemma SaveFitsLast(a: nat, n: nat)
    requires 0 < n < 16
    ensures SaveFits(a, n) <==> Fits(a, n)
  {
    assert n % 16 == n;
  }

  lemma SaveFitsStep(a: nat, n: nat)
    requires n > 0
    ensures SaveFits(a, n) <==> Fits(a, RecordLen(n)) && SaveFits(a + RecordLen(n), n - RecordLen(n))
  {
    if n >= 16 {
      FullFitsIff(a);
      SaveFitsNext(a, n);
    } else {
      SaveFitsLast(a, n);
    }
  }

  /** That is exactly when all records of a whole save fit. */
  lemma {:induction false} SaveFitsIff(mem: nat -> byte, a: nat, n: nat)
    ensures AllFit(Chunks(mem, a, n)) <==> SaveFits(a, n)
    decreases n
  {
    if n > 0 {
      var k := RecordLen(n);
      var rest := Chunks(mem, a + k, n - k);
      SaveFitsIff(mem, a + k, n - k);
      SaveFitsStep(a, n);
      AllFitCons(Rec(a, Bytes(mem, a, k)), rest);
      assert Chunks(mem, a, n) == [Rec(a, Bytes(mem, a, k))] + rest;
    }
  }

  lemma BytesNext(mem: nat -> byte, a: nat, r: nat)
    ensures Bytes(mem, a, r + 1) == Bytes(mem, a, r) + [mem(a + r)]
    ensures HexAll(Bytes(mem, a, r + 1)) == HexAll(Bytes(mem, a, r)) + Hex2(mem(a + r))
    ensures Sum(Bytes(mem, a, r + 1)) == Sum(Bytes(mem, a, r)) + mem(a + r)
  {
    var s := Bytes(mem, a, r + 1);
    assert s[..r] == Bytes(mem, a, r) && s == s[..r] + [s[r]];
  }

  /** The final checksum byte, from the running sum of the data bytes. */
  method FinalChecksum(a: nat, length: byte, checksum: nat, ghost data: seq<byte>) returns (check: byte)
    requires length == |data| + 5 && checksum == Sum(data)
    ensures check == Checksum(a, data)
  {
    var sum := checksum + (length % 256 + length / 256 % 256);
    sum := sum + (a % 256 + a / 0x100 % 256 + a / 0x1_0000 % 256 + a / 0x100_0000 % 256);
    SumOne(length);
    SumFour(BigEndian(a));
    check := 255 - sum % 256;
  }

  /** A record built from the collected hexadecimal data and the running checksum. */
  method BuildRecord(a: nat, reclen: nat, hex: string, checksum: nat, ghost data: seq<byte>) returns (record: string)
    requires reclen == |data| <= 250 && hex == HexAll(data) && checksum == Sum(data)
    ensures record == Line(a, data)
  {
    var length: byte := 4 + reclen + 1;
    var check := FinalChecksum(a, length, checksum, data);
    record := "S3" + (Hex2(length) + AddressText(a) + hex + Hex2(check));
  }

  /** The data collected for a record: its hexadecimal text and its sum. */
  ghost predicate Collected(mem: nat -> byte, a: nat, r: nat, hex: string, checksum: nat) {
    hex == HexAll(Bytes(mem, a, r)) && checksum == Sum(Bytes(mem, a, r))
  }

  lemma CollectedNone(mem: nat -> byte, a: nat)
    ensures Collected(mem, a, 0, "", 0)
  {
    assert Bytes(mem, a, 0) == [];
  }

  /** One more byte into the record. */
  method Collect(mem: nat -> byte, a: nat, r: nat, hex: string, checksum: nat) returns (hex': string, checksum': nat)
    requires Collected(mem, a, r, hex, checksum)
    ensures Collected(mem, a, r + 1, hex', checksum')
  {
    var c := mem(a + r);
    BytesNext(mem, a, r);
    hex', checksum' := hex + Hex2(c), checksum + c;
  }

  lemma RenderedMore(lines: seq<string>, recs: seq<Rec>, line: string, rec: Rec)
    requires Rendered(lines, recs) && |rec.data| <= 16 && line == Line(rec.a, rec.data)
    ensures Rendered(lines + [line], recs + [rec])
  {
    var lines', recs' := lines + [line], recs + [rec];
    forall i | 0 <= i < |lines'| ensures |recs'[i].data| <= 16 && lines'[i] == Line(recs'[i].a, recs'[i].data) {
      if i < |lines| {
        assert lines'[i] == lines[i] && recs'[i] == recs[i];
      }
    }
  }

  /** Write the collected record. */
  method Flush(mem: nat -> byte, a: nat, r: nat, hex: string, checksum: nat, lines: seq<string>, ghost recs: seq<Rec>)
    returns (lines': seq<string>)
    requires Collected(mem, a, r, hex, checksum) && r <= SREC_BYTES_PER_RECORD && Rendered(lines, recs)
    ensures Rendered(lines', recs + [Rec(a, Bytes(mem, a, r))])
  {
    var record := BuildRecord(a, r, hex, checksum, Bytes(mem, a, r));
    lines' := lines + [record];
    RenderedMore(lines, recs, record, Rec(a, Bytes(mem, a, r)));
  }

  lemma ChunksHead(mem: nat -> byte, a: nat, n: nat, k: nat, recs: seq<Rec>)
    requires 0 < k == RecordLen(n)
    ensures recs + Chunks(mem, a, n) == (recs + [Rec(a, Bytes(mem, a, k))]) + Chunks(mem, a + k, n - k)
  {
  }

  /** The counters and the record buffer of `save_serial`. */
  datatype Saver = Saver(address: nat, count: nat, reclen: nat, checksum: nat, hex: string)

  /** The records written and those still to come are all there are. */
  ghost predicate Saving(mem: nat -> byte, st: Saver, recs: seq<Rec>, all: seq<Rec>) {
    && Collected(mem, st.address, st.reclen, st.hex, st.checksum)
    && recs + Chunks(mem, st.address, st.count + st.reclen) == all
  }

  method Write(mem: nat -> byte, st: Saver, lines: seq<string>, ghost recs: seq<Rec>, ghost all: seq<Rec>)
    returns (st': Saver, lines': seq<string>, ghost recs': seq<Rec>)
    requires Saving(mem, st, recs, all) && Rendered(lines, recs) && 0 < st.reclen == RecordLen(st.count + st.reclen)
    ensures Saving(mem, st', recs', all) && Rendered(lines', recs') && st'.reclen == 0 && st'.count == st.count
  {
    lines' := Flush(mem, st.address, st.reclen, st.hex, st.checksum, lines, recs);
    recs' := recs + [Rec(st.address, Bytes(mem, st.address, st.reclen))];
    ChunksHead(mem, st.address, st.count + st.reclen, st.reclen, recs);
    st' := Saver(st.address + st.reclen, st.count, 0, 0, "");
    CollectedNone(mem, st'.address);
  }

  method Take(mem: nat -> byte, st: Saver, ghost recs: seq<Rec>, ghost all: seq<Rec>) returns (st': Saver)
    requires Saving(mem, st, recs, all) && st.count > 0
    ensures Saving(mem, st', recs, all) && st'.count == st.count - 1 && st'.reclen == st.reclen + 1
  {
    var hex, checksum := Collect(mem, st.address, st.reclen, st.hex, st.checksum);
    st' := Saver(st.address, st.count - 1, st.reclen + 1, checksum, hex);
  }

  /** One byte at a time into the record, and the record out when it is full or nothing is left. */
  method SaveRecords(mem: nat -> byte, address0: nat, count0: nat) returns (lines: seq<string>)
    ensures Rendered(lines, Chunks(mem, address0, count0))
  {
    ghost var all, recs := Chunks(mem, address0, count0), [];
    lines := [];
    var st := Saver(address0, count0, 0, 0, "");
    CollectedNone(mem, address0);
    var more := true;
    while more
      invariant st.reclen < SREC_BYTES_PER_RECORD && (!more ==> st.count == 0) && (st.count == 0 ==> st.reclen == 0)
      invariant Saving(mem, st, recs, all) && Rendered(lines, recs)
      decreases st.count, more
    {
      if st.count > 0 {
        st := Take(mem, st, recs, all);
      }
      if (st.reclen == SREC_BYTES_PER_RECORD || st.count == 0) && st.reclen > 0 {
        st, lines, recs := Write(mem, st, lines, recs, all);
      }
      more := st.count > 0;
    }
    assert recs + [] == recs;
  }

  /** The lines written, each followed by a newline: header, one record for each chunk of memory, trailer. */
  method SaveSerial(mem: nat -> byte, address: nat, count: nat) returns (out: seq<string>)
    ensures |out| >= 2 && out[0] == HEADER && out[|out| - 1] == TRAILER
    ensures Rendered(out[1..|out| - 1], Chunks(mem, address, count))
  {
    var lines := SaveRecords(mem, address, count);
    out := [HEADER] + lines + [TRAILER];
    assert out[1..|out| - 1] == lines;
  }

  /** Each record starts where the one before ends, from `a` to `end`, and holds what memory holds there. */
  ghost predicate Tiles(recs: seq<Rec>, mem: nat -> byte, a: nat, end: nat) {
    if recs == [] then a == end
    else && recs[0].a == a && recs[0].data == Bytes(mem, a, |recs[0].data|)
         && Tiles(recs[1..], mem, a + |recs[0].data|, end)
  }

  /** The records tile the memory range. */
  lemma {:induction false} ChunksTile(mem: nat -> byte, a: nat, n: nat)
    ensures Tiles(Chunks(mem, a, n), mem, a, a + n)
    decreases n
  {
    if n > 0 {
      var k := RecordLen(n);
      ChunksTile(mem, a + k, n - k);
      assert Chunks(mem, a, n)[1..] == Chunks(mem, a + k, n - k);
    }
  }
}
