/** Splitting an aggregated receive buffer into data and configuration records. */
module Deaggregate {
  import opened RxHeader
  import opened Words

  function Wrap16(x: nat): u16 {
    x % 0x1_0000
  }

  /** aicwf_another_ptk */
  predicate Another(buf: seq<u8>) {
    |buf| >= 2 && PktLen(buf) != 0
  }

  /** A buffer of two bytes has no type byte; whichever value is read there, neither kind of record
      fits. */
  predicate IsData(buf: seq<u8>) {
    |buf| < 3 || And(buf[2], CFG) != CFG
  }

  function RoundUp4(n: nat): nat {
    (n + 3) / 4 * 4
  }

  /** How many bytes are copied out, and how many are pulled off; the lengths are 16-bit words. */
  function CopyLen(buf: seq<u8>): nat
    requires |buf| >= 2
  {
    if IsData(buf) then Wrap16(PktLen(buf) + HW_HEADER) else PktLen(buf) + 4
  }

  function PullLen(buf: seq<u8>): nat
    requires |buf| >= 2
  {
    if IsData(buf) then Wrap16(PktLen(buf) + HW_HEADER) else Wrap16(RoundUp4(PktLen(buf))) + 4
  }

  /** skb_pull: no change when the buffer is too short. */
  function Pull(buf: seq<u8>, n: nat): seq<u8> {
    if n <= |buf| then buf[n..] else buf
  }

  // ---------------------------------------------------------------- when the loop ends

  datatype Loop = Going(buf: seq<u8>) | Ended(buf: seq<u8>)

  /** One turn of the loop: another record, and it does not claim more than there is. */
  function Turn(l: Loop): Loop {
    if l.Ended? then l
    else if !Another(l.buf) || PktLen(l.buf) > |l.buf| then Ended(l.buf)
    else Going(Pull(l.buf, PullLen(l.buf)))
  }

  function Turns(l: Loop, n: nat): Loop
    decreases n
  {
    if n == 0 then l else Turns(Turn(l), n - 1)
  }

  ghost predicate Ends(buf: seq<u8>) {
    exists n: nat :: Turns(Going(buf), n).Ended?
  }

  /** Every record the loop meets can be pulled off. */
  predicate AllFit(buf: seq<u8>)
    decreases |buf|
  {
    !Another(buf) || PktLen(buf) > |buf| || (0 < PullLen(buf) <= |buf| && AllFit(buf[PullLen(buf)..]))
  }

  lemma {:induction false} StuckForever(buf: seq<u8>, n: nat)
    requires Another(buf) && PktLen(buf) <= |buf| && !(0 < PullLen(buf) <= |buf|)
    ensures Turns(Going(buf), n) == Going(buf)
  {
    if n > 0 {
      assert Pull(buf, PullLen(buf)) == buf;
      StuckForever(buf, n - 1);
    }
  }

  lemma {:induction false} FitEnds(buf: seq<u8>) returns (n: nat)
    requires AllFit(buf)
    ensures Turns(Going(buf), n).Ended? && n <= |buf| + 1
    decreases |buf|
  {
    if !Another(buf) || PktLen(buf) > |buf| {
      n := 1;
      assert Turns(Going(buf), 1) == Turns(Turn(Going(buf)), 0);
    } else {
      n := FitEnds(buf[PullLen(buf)..]);
      n := n + 1;
    }
  }

  lemma {:induction false} EndsFit(buf: seq<u8>, n: nat)
    requires Turns(Going(buf), n).Ended?
    ensures AllFit(buf)
    decreases n
  {
    if n > 0 && Another(buf) && PktLen(buf) <= |buf| {
      if 0 < PullLen(buf) <= |buf| {
        EndsFit(buf[PullLen(buf)..], n - 1);
      } else {
        StuckForever(buf, n);
      }
    }
  }

  /** The loop ends if and only if every record it meets fits; a record that does not fit is
      delivered over and over. */
  lemma EndsIffAllFit(buf: seq<u8>)
    ensures Ends(buf) <==> AllFit(buf)
  {
    if AllFit(buf) {
      var n := FitEnds(buf);
    }
    if Ends(buf) {
      var n: nat :| Turns(Going(buf), n).Ended?;
      EndsFit(buf, n);
    }
  }

  /** A data record cut short by the end of its buffer keeps the loop from ending. */
  lemma ShortDataNeverEnds()
    ensures !Ends([2, 0, 0, 0])
  {
    assert And(0, CFG) == 0;
    assert PullLen([2, 0, 0, 0]) == 62;
    EndsIffAllFit([2, 0, 0, 0]);
  }

  // ---------------------------------------------------------------- what the loop delivers

  datatype Split = Split(records: seq<seq<u8>>, rest: seq<u8>)

  function Records(buf: seq<u8>): Split
    requires AllFit(buf)
    decreases |buf|
  {
    if !Another(buf) || PktLen(buf) > |buf| then Split([], buf)
    else
      var r := Records(buf[PullLen(buf)..]);
      Split([buf[..if CopyLen(buf) <= |buf| then CopyLen(buf) else |buf|]] + r.records, r.rest)
  }

  /** What one turn hands on: the record, or as much of it as the buffer holds. */
  function Delivers(l: Loop): seq<seq<u8>> {
    if l.Ended? || !Another(l.buf) || PktLen(l.buf) > |l.buf| then []
    else [l.buf[..if CopyLen(l.buf) <= |l.buf| then CopyLen(l.buf) else |l.buf|]]
  }

  function Delivered(l: Loop, n: nat): seq<seq<u8>>
    decreases n
  {
    if n == 0 then [] else Delivers(l) + Delivered(Turn(l), n - 1)
  }

  lemma {:induction false} NextTurn(l: Loop, n: nat)
    ensures Turns(l, n + 1) == Turn(Turns(l, n))
    ensures Delivered(l, n + 1) == Delivered(l, n) + Delivers(Turns(l, n))
    decreases n
  {
    if n == 0 {
      assert Delivered(Turn(l), 0) == [] && Turns(Turn(l), 0) == Turn(l);
    } else {
      NextTurn(Turn(l), n - 1);
    }
  }

  /** The inner loop of aicwf_process_rxframes, for up to `limit` turns on any buffer. */
  method SplitRecords(data: seq<u8>, limit: nat) returns (records: seq<seq<u8>>, rest: seq<u8>, ended: bool)
    ensures records == Delivered(Going(data), limit)
    ensures Turns(Going(data), limit) == if ended then Ended(rest) else Going(rest)
  {
    records, rest, ended := [], data, false;
    for n := 0 to limit
      invariant records == Delivered(Going(data), n)
      invariant Turns(Going(data), n) == if ended then Ended(rest) else Going(rest)
    {
      NextTurn(Going(data), n);
      if !ended {
        ended := !Another(rest) || PktLen(rest) > |rest|;
        if !ended {
          var copyLen, pullLen := CopyLen(rest), PullLen(rest);
          records := records + [rest[..if copyLen <= |rest| then copyLen else |rest|]];
          rest := Pull(rest, pullLen);
        }
      }
    }
  }

  lemma {:induction false} EndedStays(buf: seq<u8>, n: nat)
    ensures Turns(Ended(buf), n) == Ended(buf) && Delivered(Ended(buf), n) == []
  {
    if n > 0 {
      EndedStays(buf, n - 1);
    }
  }

  /** When every record fits, the loop has ended after one turn for each byte and one more, with the
      records of the recursive reading delivered and its rest left. */
  lemma {:induction false} FitDelivers(buf: seq<u8>, n: nat)
    requires AllFit(buf) && n > |buf|
    ensures Turns(Going(buf), n) == Ended(Records(buf).rest) && Delivered(Going(buf), n) == Records(buf).records
    decreases n
  {
    if !Another(buf) || PktLen(buf) > |buf| {
      EndedStays(buf, n - 1);
    } else {
      FitDelivers(buf[PullLen(buf)..], n - 1);
    }
  }

  lemma {:induction false} SameTurn(l: Loop, n: nat)
    requires Turn(l) == l && |Delivers(l)| == 1
    ensures |Delivered(l, n)| == n && forall i :: 0 <= i < n ==> Delivered(l, n)[i] == Delivers(l)[0]
    decreases n
  {
    if n > 0 {
      SameTurn(l, n - 1);
      assert Delivered(l, n) == Delivers(l) + Delivered(l, n - 1);
    }
  }

  /** A record that does not fit is delivered again with every turn. */
  lemma StuckDelivers(buf: seq<u8>, n: nat)
    requires Another(buf) && PktLen(buf) <= |buf| && !(0 < PullLen(buf) <= |buf|)
    ensures |Delivers(Going(buf))| == 1 && |Delivered(Going(buf), n)| == n
    ensures forall i :: 0 <= i < n ==> Delivered(Going(buf), n)[i] == Delivers(Going(buf))[0]
  {
    assert Pull(buf, PullLen(buf)) == buf;
    SameTurn(Going(buf), n);
  }

  /** A record as the firmware sends it, and the bytes that pad it on the wire. */
  datatype Wire = Wire(record: seq<u8>, pad: seq<u8>)

  /** Bit 4 of the type tells the two kinds apart; the first two bytes announce a length n. A data
      record has n + 60 bytes and is not padded; a configuration record has n + 4 and is padded up to
      a multiple of four. */
  ghost predicate WellFormed(w: Wire) {
    && |w.record| >= 3
    && var n := w.record[0] as int + 256 * w.record[1] as int;
    && n != 0
    && if w.record[2] / 16 % 2 == 0
       then |w.record| == n + 60 < 0x1_0000 && w.pad == []
       else |w.record| == n + 4 && n <= 0xFFFC && |w.record + w.pad| == 4 + (n + 3) / 4 * 4
  }

  function Encode(ws: seq<Wire>): seq<u8> {
    if ws == [] then [] else ws[0].record + ws[0].pad + Encode(ws[1..])
  }

  function RecordsOf(ws: seq<Wire>): (r: seq<seq<u8>>)
    ensures |r| == |ws| && forall i :: 0 <= i < |ws| ==> r[i] == ws[i].record
  {
    if ws == [] then [] else [ws[0].record] + RecordsOf(ws[1..])
  }

  lemma FirstRecord(w: Wire, more: seq<u8>)
    requires WellFormed(w)
    ensures var buf := w.record + w.pad + more;
      && Another(buf) && PktLen(buf) <= |buf|
      && CopyLen(buf) == |w.record| && PullLen(buf) == |w.record + w.pad|
      && buf[..CopyLen(buf)] == w.record && buf[PullLen(buf)..] == more
  {
    var buf := w.record + w.pad + more;
    CfgBit(w.record[2]);
    assert buf[0] == w.record[0] && buf[1] == w.record[1] && buf[2] == w.record[2];
    assert buf == w.record + (w.pad + more);
  }

  lemma SplitFirst(w: Wire, more: seq<u8>)
    requires WellFormed(w) && AllFit(more)
    ensures var buf := w.record + w.pad + more;
      AllFit(buf) && Records(buf) == Split([w.record] + Records(more).records, Records(more).rest)
  {
    FirstRecord(w, more);
  }

  /** De-aggregation inverts concatenation: whatever follows the records, if it is not another
      record, the loop ends, delivers exactly the records in order, and leaves what follows. */
  lemma {:induction false} SplitInvertsEncode(ws: seq<Wire>, tail: seq<u8>)
    requires forall i :: 0 <= i < |ws| ==> WellFormed(ws[i])
    requires |tail| < 2 || (tail[0] == 0 && tail[1] == 0)
    ensures AllFit(Encode(ws) + tail)
    ensures Records(Encode(ws) + tail) == Split(RecordsOf(ws), tail)
    decreases |ws|
  {
    if ws == [] {
      assert Encode(ws) + tail == tail;
    } else {
      var buf, more := Encode(ws) + tail, Encode(ws[1..]) + tail;
      assert buf == ws[0].record + ws[0].pad + more;
      SplitInvertsEncode(ws[1..], tail);
      SplitFirst(ws[0], more);
    }
  }
}
