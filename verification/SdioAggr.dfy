/** Aggregation of frames for the SDIO bus: records with 12-bit length headers packed into one
    block, and the firmware's buffer credits. */
module SdioAggr {
  import opened Sequences
  import opened Words

  const TAIL_LEN := 4

  /** A frame as it is packed: the host descriptor and the payload. */
  datatype Pkt = Pkt(desc: seq<u8>, payload: seq<u8>)

  function PadLen(n: nat): (r: nat)
    ensures r < 4 && (n + r) % 4 == 0
  {
    (4 - n % 4) % 4
  }

  /** Rounding the end of a record up to a multiple of 4 pads its body, since its start is one. */
  lemma PadAmount(start: nat, n: nat, end: nat)
    requires start % 4 == 0 && end == start + 4 + n
    ensures PadLen(n) == if end % 4 != 0 then (end + 3) / 4 * 4 - end else 0
  {
  }

  lemma SumOfFours(a: nat, b: nat)
    requires a % 4 == 0 && b % 4 == 0
    ensures (a + b) % 4 == 0
  {
  }

  /** The bytes of a record behind its header. */
  function Body(p: Pkt): (b: seq<u8>)
    ensures |b| % 4 == 0
  {
    p.desc + p.payload + Zeros(PadLen(|p.desc + p.payload|))
  }

  /** The header keeps twelve bits of the length. */
  function Header(len: nat): seq<u8> {
    [len % 0x100, len / 0x100 % 0x10, 1, 0]
  }

  function Record(p: Pkt): (r: seq<u8>)
    ensures |r| % 4 == 0 && |r| == 4 + |Body(p)|
  {
    SumOfFours(4, |Body(p)|);
    Header(|Body(p)|) + Body(p)
  }

  /** Overwriting the two length bytes of a header behind `front`. */
  lemma PatchHeader(front: seq<u8>, len: nat, body: seq<u8>)
    ensures var n, all := |body|, front + Header(len) + body;
      all[|front| := n % 0x100][|front| + 1 := n / 0x100 % 0x10] == front + (Header(n) + body)
  {
  }

  /** A frame whose length the header can hold. */
  predicate Fits(p: Pkt) {
    1 <= |p.desc| && |p.desc| + |p.payload| <= 4092
  }

  function Pack(ps: seq<Pkt>): (b: seq<u8>)
    ensures |b| % 4 == 0 && (b == [] <==> ps == [])
  {
    if ps == [] then [] else
      var front, last := Pack(ps[..|ps| - 1]), Record(ps[|ps| - 1]);
      SumOfFours(|front|, |last|);
      front + last
  }

  // ---------------------------------------------------------------- what the firmware reads

  function Len12(b: seq<u8>): nat
    requires |b| >= 2
  {
    b[0] as int + 0x100 * (b[1] as int % 0x10)
  }

  /** Walk the headers from the front; stop at a zero header or at the end. */
  function Walk(b: seq<u8>): seq<seq<u8>>
    decreases |b|
  {
    if |b| < 4 || Len12(b) == 0 || |b| < 4 + Len12(b) then []
    else [b[4..4 + Len12(b)]] + Walk(b[4 + Len12(b)..])
  }

  function Bodies(ps: seq<Pkt>): (r: seq<seq<u8>>)
    ensures |r| == |ps| && forall i :: 0 <= i < |ps| ==> r[i] == Body(ps[i])
  {
    seq(|ps|, i requires 0 <= i < |ps| => Body(ps[i]))
  }

  lemma WalkRecord(p: Pkt, more: seq<u8>)
    requires Fits(p)
    ensures Walk(Record(p) + more) == [Body(p)] + Walk(more)
  {
    var b := Record(p) + more;
    var n := |Body(p)|;
    assert n <= 4092 && n >= 1;
    assert b[0] == n % 0x100 && b[1] == n / 0x100 % 0x10;
    assert Len12(b) == n;
    assert b[4..4 + n] == Body(p);
    assert b[4 + n..] == more;
  }

  lemma {:induction false} WalkPack(ps: seq<Pkt>, more: seq<u8>)
    requires forall i :: 0 <= i < |ps| ==> Fits(ps[i])
    ensures Walk(Pack(ps) + more) == Bodies(ps) + Walk(more)
    decreases |ps|
  {
    if ps == [] {
      assert Pack(ps) + more == more;
    } else {
      var n := |ps| - 1;
      var front, last := ps[..n], ps[n];
      WalkPack(front, Record(last) + more);
      WalkRecord(last, more);
      Reassociate(Pack(front), Record(last), more);
      Reassociate(Bodies(front), [Body(last)], Walk(more));
      BodiesLast(ps);
    }
  }

  lemma Reassociate<T>(a: seq<T>, b: seq<T>, c: seq<T>)
    ensures (a + b) + c == a + (b + c)
  {
  }

  lemma BodiesLast(ps: seq<Pkt>)
    requires ps != []
    ensures Bodies(ps) == Bodies(ps[..|ps| - 1]) + [Body(ps[|ps| - 1])]
  {
  }

  // ---------------------------------------------------------------- one transfer

  /** What goes out: the aggregate with its end marker, and the length handed to the bus. */
  datatype Block = Block(data: seq<u8>, len: nat)

  function Close(aggr: seq<u8>): seq<u8> {
    if |aggr| % 512 != 0 then aggr + Zeros(TAIL_LEN) else aggr
  }

  function Transfer(aggr: seq<u8>): Block {
    Block(Close(aggr), (|Close(aggr)| + 511) / 512 * 512)
  }

  lemma BlockLength(n: nat)
    requires n % 4 == 0
    ensures var m := if n % 512 != 0 then n + 4 else n;
      var len := (m + 511) / 512 * 512;
      len % 512 == 0 && n <= m <= len < n + 512 && (n % 512 == 0 ==> len == n)
  {
  }

  /** What follows the records on the wire is the end marker or nothing. */
  lemma WalkStops(aggr: seq<u8>, wire: seq<u8>)
    requires |aggr| % 4 == 0
    requires |wire| == Transfer(aggr).len && |Close(aggr)| <= |wire| && wire[..|Close(aggr)|] == Close(aggr)
    ensures |wire| % 512 == 0 && |aggr| <= |wire| < |aggr| + 512 && wire == aggr + wire[|aggr|..]
    ensures Walk(wire[|aggr|..]) == []
  {
    BlockLength(|aggr|);
    var closed, more := Close(aggr), wire[|aggr|..];
    assert forall i :: 0 <= i < |closed| ==> wire[i] == wire[..|closed|][i];
    if |aggr| % 512 != 0 {
      assert more[0] == closed[|aggr|] == 0 && more[1] == closed[|aggr| + 1] == 0;
    }
  }

  /** The length is the least multiple of 512 that covers the records, end marker or not; and
      whatever the buffer holds between the data and that length, walking the headers visits
      exactly the packed records. */
  lemma TransferReadsBack(ps: seq<Pkt>, wire: seq<u8>)
    requires forall i :: 0 <= i < |ps| ==> Fits(ps[i])
    requires |wire| == Transfer(Pack(ps)).len && |Close(Pack(ps))| <= |wire|
    requires wire[..|Close(Pack(ps))|] == Close(Pack(ps))
    ensures Walk(wire) == Bodies(ps)
    ensures |wire| % 512 == 0 && |Pack(ps)| <= |wire| < |Pack(ps)| + 512
  {
    WalkStops(Pack(ps), wire);
    WalkPack(ps, wire[|Pack(ps)|..]);
    assert Bodies(ps) + [] == Bodies(ps);
  }

  // ---------------------------------------------------------------- credits

  /** The transmit state and, as history, the frames packed, the frames sent, and the credits
      granted since the burst began. */
  datatype Tx = Tx(avail: int, count: int, aggr: seq<u8>, packed: seq<Pkt>, sent: seq<Pkt>, granted: int)

  /** What one call of aicwf_sdio_send meets: six readings of the credit register, the frame at the
      head of the queue, whether it was the last, and whether a command is waiting. */
  datatype Input = Input(readings: seq<int>, pkt: Option<Pkt>, last: bool, cmd: bool)

  predicate ValidInput(i: Input) {
    |i.readings| == 6 && (i.pkt.Some? ==> Fits(i.pkt.value))
  }

  function Positive(x: int): nat {
    if x > 0 then x else 0
  }

  // The credit register: seven bits of credits, read at most 51 times in a row.
  const CREDIT_MASK := 0x7F
  const RETRY_COUNT := 50

  /** What aicwf_sdio_flow_ctrl makes of the register values it gets; None is a failed read. */
  function FlowCtrl(regs: seq<Option<u8>>): int
    requires regs != []
  {
    if regs[0].None? then -1
    else if regs[0].value % 0x80 != 0 then regs[0].value % 0x80
    else if |regs| == 1 then -(regs[0].value as int)
    else FlowCtrl(regs[1..])
  }

  /** A register value that ends the polling: credits, or a failed read. */
  predicate Decides(reg: Option<u8>) {
    reg.None? || reg.value % 0x80 != 0
  }

  /** Credits are found exactly when a value with credits comes before any failed read, and then the
      first such value gives their number. */
  lemma {:induction false} FlowCtrlFinds(regs: seq<Option<u8>>)
    requires regs != []
    ensures FlowCtrl(regs) <= CREDIT_MASK
    ensures FlowCtrl(regs) > 0 <==>
      exists k :: 0 <= k < |regs| && Decides(regs[k]) && regs[k].Some? && forall j :: 0 <= j < k ==> !Decides(regs[j])
    ensures forall k :: 0 <= k < |regs| && Decides(regs[k]) && (forall j :: 0 <= j < k ==> !Decides(regs[j])) ==>
      FlowCtrl(regs) == if regs[k].None? then -1 else regs[k].value % 0x80
  {
    if !Decides(regs[0]) && |regs| > 1 {
      var rest := regs[1..];
      FlowCtrlFinds(rest);
      forall k | 0 <= k < |regs| && Decides(regs[k]) && forall j :: 0 <= j < k ==> !Decides(regs[j])
        ensures FlowCtrl(regs) == if regs[k].None? then -1 else regs[k].value % 0x80
      {
        assert rest[k - 1] == regs[k] && forall j :: 0 <= j < k - 1 ==> rest[j] == regs[j + 1];
      }
      if FlowCtrl(rest) > 0 {
        var k :| 0 <= k < |rest| && Decides(rest[k]) && rest[k].Some? && forall j :: 0 <= j < k ==> !Decides(rest[j]);
        assert regs[k + 1] == rest[k] && forall j :: 1 <= j < k + 1 ==> regs[j] == rest[j - 1];
      }
    }
  }

  /** aicwf_sdio_flow_ctrl */
  method PollCredits(regs: seq<Option<u8>>) returns (ret: int)
    requires |regs| == RETRY_COUNT + 1
    ensures ret == FlowCtrl(regs)
  {
    ret := -1;
    var count := 0;
    assert regs[0..] == regs;
    while true
      invariant 0 <= count <= RETRY_COUNT && FlowCtrl(regs[count..]) == FlowCtrl(regs)
      decreases RETRY_COUNT - count
    {
      var reg := regs[count];
      if reg.None? {
        return -1;
      }
      assert Pow2(7) == 0x80;
      AndMask(reg.value, 7);
      if And(reg.value, 0x7F) != 0 {
        return And(reg.value, 0x7F);
      }
      if count >= RETRY_COUNT {
        ret := -(reg.value as int);
        break;
      }
      assert regs[count..][1..] == regs[count + 1..];
      count := count + 1;
    }
  }

  /** The first positive reading, or the last. */
  function Reading(readings: seq<int>): int
    requires readings != []
  {
    if |readings| == 1 || readings[0] > 0 then readings[0] else Reading(readings[1..])
  }

  function Flush(t: Tx): Tx {
    t.(avail := t.avail - t.count, count := 0, aggr := [], packed := [], sent := t.sent + t.packed)
  }

  function Add(t: Tx, p: Pkt): Tx {
    t.(count := t.count + 1, aggr := t.aggr + Record(p), packed := t.packed + [p])
  }

  function Credit(t: Tx, readings: seq<int>): Tx
    requires readings != []
  {
    if t.avail <= 0 then t.(avail := Reading(readings), granted := t.granted + Positive(Reading(readings))) else t
  }

  datatype Result = Result(tx: Tx, block: Option<Block>)

  /** aicwf_sdio_send */
  function Send(t: Tx, i: Input): Result
    requires ValidInput(i)
  {
    if (t.count == 0 && t.aggr != []) || (t.count != 0 && t.aggr == []) then
      Result(if t.aggr != [] then t.(aggr := [], count := 0) else t, None)
    else
      var c := Credit(t, i.readings);
      if c.avail <= 0 then Result(c, None)
      else if c.count == c.avail then
        (if c.count > 0 then Result(Flush(c), Some(Transfer(c.aggr))) else Result(c, None))
      else if i.pkt.None? then Result(c, None)
      else
        var a := Add(c, i.pkt.value);
        if i.last || i.cmd then Result(Flush(a), Some(Transfer(a.aggr))) else Result(a, None)
  }

  function Burst(t: Tx, inputs: seq<Input>): Tx
    requires forall k :: 0 <= k < |inputs| ==> ValidInput(inputs[k])
    decreases |inputs|
  {
    if inputs == [] then t else Burst(Send(t, inputs[0]).tx, inputs[1..])
  }

  /** A burst begins with a fresh reading and an empty aggregate. */
  function Begin(read: int): Tx {
    Tx(read, 0, [], [], [], Positive(read))
  }

  ghost predicate Inv(t: Tx) {
    && t.count == |t.packed| <= Positive(t.avail)
    && t.aggr == Pack(t.packed)
    && t.granted == Positive(t.avail) + |t.sent|
    && forall i :: 0 <= i < |t.packed| ==> Fits(t.packed[i])
  }

  lemma PackAppend(ps: seq<Pkt>, p: Pkt)
    ensures Pack(ps + [p]) == Pack(ps) + Record(p)
  {
    assert (ps + [p])[..|ps|] == ps;
  }

  /** One call keeps the invariant, and a block that it sends carries exactly the frames that it
      adds to the sent ones. */
  lemma SendInv(t: Tx, i: Input)
    requires Inv(t) && ValidInput(i)
    ensures var r := Send(t, i);
      && Inv(r.tx)
      && match r.block
         case None => r.tx.sent == t.sent
         case Some(b) => exists ps: seq<Pkt> :: ps != [] && r.tx.sent == t.sent + ps && b == Transfer(Pack(ps))
  {
    hide Fits, Pack, PadLen, Reading, Record, Transfer;
    if i.pkt.Some? {
      PackAppend(t.packed, i.pkt.value);
    }
    var r := Send(t, i);
    if r.block.Some? {
      var c := Credit(t, i.readings);
      var ps := if c.count == c.avail then t.packed else t.packed + [i.pkt.value];
      assert ps != [] && r.tx.sent == t.sent + ps && r.block.value == Transfer(Pack(ps));
    }
  }

  /** Throughout a burst the aggregate never holds more frames than there are credits, every credit
      granted is unused or was spent on one frame sent, and the aggregate is the packed frames. */
  lemma {:induction false} BurstInv(t: Tx, inputs: seq<Input>)
    requires Inv(t) && forall k :: 0 <= k < |inputs| ==> ValidInput(inputs[k])
    ensures Inv(Burst(t, inputs)) && |Burst(t, inputs).aggr| % 4 == 0
    decreases |inputs|
  {
    if inputs != [] {
      SendInv(t, inputs[0]);
      BurstInv(Send(t, inputs[0]).tx, inputs[1..]);
    }
  }

  lemma BeginInv(read: int)
    ensures Inv(Begin(read))
  {
  }

  /** A burst that is cut short by a command leaves its aggregate behind.  If the next reading is
      smaller than what is left, the test for equality never stops the packing, and the balance goes
      below zero. */
  lemma LeftoverOverdraws(p: Pkt, readings: seq<int>)
    requires Fits(p) && |readings| == 6
    ensures var go := Input(readings, Some(p), false, false);
      var left := Send(Send(Begin(3), go).tx, go).tx;
      var next := left.(avail := 1);
      left.count == 2 && Send(next, Input(readings, Some(p), true, false)).tx.avail == -2
  {
  }

  /** A credit read is a credit left or a frame sent. */
  predicate Balanced(t: Tx) {
    t.granted == Positive(t.avail) + |t.sent|
  }

  /** The state in which a burst begins: a fresh reading, and what the last burst left behind. */
  function Resume(t: Tx, read: int): Tx {
    t.(avail := read, granted := Positive(read) + |t.sent|)
  }

  ghost predicate StaysBalanced(t: Tx) {
    forall inputs: seq<Input> | (forall k :: 0 <= k < |inputs| ==> ValidInput(inputs[k])) :: Balanced(Burst(t, inputs))
  }

  /** One frame left behind, and no credit yet: any positive reading covers it. */
  ghost predicate Waiting(t: Tx) {
    t.avail <= 0 && t.count == 1 && Inv(t.(avail := 1, granted := t.granted + 1))
  }

  lemma WaitingSend(t: Tx, i: Input)
    requires Waiting(t) && ValidInput(i)
    ensures Waiting(Send(t, i).tx) || Inv(Send(t, i).tx)
  {
    var c := Credit(t, i.readings);
    if c.avail > 0 {
      SendInv(c, i);
      assert Send(t, i) == Send(c, i);
    }
  }

  lemma {:induction false} WaitingBurst(t: Tx, inputs: seq<Input>)
    requires (Inv(t) || Waiting(t)) && forall k :: 0 <= k < |inputs| ==> ValidInput(inputs[k])
    ensures Balanced(Burst(t, inputs))
    decreases |inputs|
  {
    if inputs != [] {
      if Inv(t) {
        SendInv(t, inputs[0]);
      } else {
        WaitingSend(t, inputs[0]);
      }
      WaitingBurst(Send(t, inputs[0]).tx, inputs[1..]);
    }
  }

  /** The credits add up whatever the burst meets if and only if the frames left behind are at most
      the credits read, or, with none read, at most one. */
  lemma StaysBalancedIff(t: Tx, read: int, p: Pkt)
    requires Inv(t) && Fits(p)
    ensures StaysBalanced(Resume(t, read)) <==> t.count <= (if read > 0 then read else 1)
  {
    hide Fits, Pack, Record, Transfer;
    var next := Resume(t, read);
    if t.count <= (if read > 0 then read else 1) {
      forall inputs: seq<Input> | forall k :: 0 <= k < |inputs| ==> ValidInput(inputs[k])
        ensures Balanced(Burst(next, inputs))
      {
        WaitingBurst(next, inputs);
      }
    } else {
      var i := Input([1, 1, 1, 1, 1, 1], Some(p), true, false);
      assert ValidInput(i);
      BurstOne(next, i);
      assert !Balanced(Send(next, i).tx);
    }
  }

  lemma BurstOne(t: Tx, i: Input)
    requires ValidInput(i)
    ensures Burst(t, [i]) == Send(t, i).tx
  {
    assert [i][1..] == [];
  }

  // ---------------------------------------------------------------- the transmit side as built

  class TxPriv {
    var fwAvailBufcnt: int
    var aggrCount: int
    var aggr: seq<u8>     // the bytes between head and tail

    ghost var packed: seq<Pkt>
    ghost var sent: seq<Pkt>
    ghost var granted: int

    ghost function State(): Tx
      reads this
    {
      Tx(fwAvailBufcnt, aggrCount, aggr, packed, sent, granted)
    }

    constructor (read: int)
      ensures State() == Begin(read)
    {
      fwAvailBufcnt, aggrCount, aggr := read, 0, [];
      packed, sent, granted := [], [], Positive(read);
    }

    /** aicwf_sdio_aggrbuf_reset */
    method AggrbufReset()
      modifies this`aggr, this`aggrCount
      ensures aggr == [] && aggrCount == 0
    {
      aggr := [];
      aggrCount := 0;
    }

    /** aicwf_sdio_aggr: header, descriptor, payload and padding are appended, and the header is
        patched with the padded length afterwards. */
    method Aggr(p: Pkt)
      requires |aggr| % 4 == 0
      modifies this`aggr, this`aggrCount
      ensures aggr == old(aggr) + Record(p) && aggrCount == old(aggrCount) + 1
    {
      var start := |aggr|;
      aggr := aggr + Header(|p.desc + p.payload|);
      aggr := aggr + p.desc;
      aggr := aggr + p.payload;
      var currLen := |aggr|;
      PadAmount(start, |p.desc + p.payload|, currLen);
      if currLen % 4 != 0 {
        aggr := aggr + Zeros((currLen + 3) / 4 * 4 - currLen);
      }
      assert aggr == old(aggr) + Header(|p.desc + p.payload|) + Body(p);
      var padded := |aggr| - start - 4;
      PatchHeader(old(aggr), |p.desc + p.payload|, Body(p));
      aggr := aggr[start := padded % 0x100][start + 1 := padded / 0x100 % 0x10];
      aggrCount := aggrCount + 1;
    }

    /** aicwf_sdio_aggr_send and the length rounding of aicwf_sdio_txpkt. */
    method AggrSend() returns (block: Block)
      modifies this`aggr, this`aggrCount
      ensures block == Transfer(old(aggr)) && aggr == [] && aggrCount == 0
    {
      if |aggr| % 512 != 0 {
        aggr := aggr + Zeros(TAIL_LEN);
      }
      var len := |aggr|;
      block := Block(aggr, (len + 512 - 1) / 512 * 512);
      AggrbufReset();
    }

    /** aicwf_sdio_send */
    method SdioSend(i: Input) returns (block: Option<Block>)
      requires |aggr| % 4 == 0 && ValidInput(i)
      modifies this
      ensures Result(State(), block) == Send(old(State()), i)
      ensures Inv(old(State())) ==> Inv(State())
    {
      ghost var before := State();
      if Inv(before) {
        SendInv(before, i);
      }
      block := None;
      if (aggrCount == 0 && aggr != []) || (aggrCount != 0 && aggr == []) {
        if aggr != [] {
          AggrbufReset();
        }
        return;
      }
      if fwAvailBufcnt <= 0 {
        ReadCredits(i.readings);
        if fwAvailBufcnt <= 0 {
          return;
        }
      }
      assert State() == Credit(before, i.readings);
      if aggrCount == fwAvailBufcnt {
        if aggrCount > 0 {
          block := SendAggregate();
        }
      } else if i.pkt.Some? {
        Aggr(i.pkt.value);
        packed := packed + [i.pkt.value];
        if i.last || i.cmd {
          block := SendAggregate();
        }
      }
    }

    /** Read the credit register until it is positive, at most six times. */
    method ReadCredits(readings: seq<int>)
      requires |readings| == 6
      modifies this`fwAvailBufcnt, this`granted
      ensures fwAvailBufcnt == Reading(readings) && granted == old(granted) + Positive(Reading(readings))
    {
      var retry := 0;
      fwAvailBufcnt := readings[0];
      assert readings[0..] == readings;
      while fwAvailBufcnt <= 0 && retry < 5
        invariant 0 <= retry <= 5 && fwAvailBufcnt == readings[retry] && granted == old(granted)
        invariant Reading(readings[retry..]) == Reading(readings)
        decreases 5 - retry
      {
        assert readings[retry..][1..] == readings[retry + 1..];
        retry := retry + 1;
        fwAvailBufcnt := readings[retry];
      }
      granted := granted + Positive(fwAvailBufcnt);
    }

    method SendAggregate() returns (block: Option<Block>)
      modifies this
      ensures State() == Flush(old(State())) && block == Some(Transfer(old(aggr)))
    {
      fwAvailBufcnt := fwAvailBufcnt - aggrCount;
      sent, packed := sent + packed, [];
      var b := AggrSend();
      block := Some(b);
    }
  }
}
