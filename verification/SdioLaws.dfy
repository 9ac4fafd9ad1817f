/** What the SDIO transmit side does: the bytes of a record, when a block goes out and with which
    frames, and how a burst empties the queue. */
module SdioLaws {
  import opened SdioAggr
  import opened Sequences
  import opened Words

  // ---------------------------------------------------------------- records

  /** A record: twelve bits of the length of its body, the data type 1, a zero byte, the descriptor,
      the payload, and zeros up to a multiple of four. */
  lemma RecordBytes(p: Pkt)
    ensures var n, r := |p.desc + p.payload|, Record(p);
      var padded := (n + 3) / 4 * 4;
      && |r| == 4 + padded
      && r[0] == padded % 256 && r[1] == padded / 256 % 16 && r[2] == 1 && r[3] == 0
      && r[4..4 + n] == p.desc + p.payload
      && forall i :: 4 + n <= i < |r| ==> r[i] == 0
  {
    hide Zeros;
    var n, r := |p.desc + p.payload|, Record(p);
    PadAmount(0, n, 4 + n);
    assert |Body(p)| == (n + 3) / 4 * 4;
    forall i | 4 + n <= i < |r|
      ensures r[i] == 0
    {
      ZerosAt(PadLen(n), i - 4 - n);
    }
  }

  /** An aggregate is its records, one behind the other, in the order in which they were packed. */
  lemma {:induction false} PackConcat(a: seq<Pkt>, b: seq<Pkt>)
    ensures Pack(a + b) == Pack(a) + Pack(b)
    decreases |b|
  {
    hide Record;
    if b == [] {
      assert a + b == a;
    } else {
      PackConcat(a, b[..|b| - 1]);
      assert (a + b)[..|a + b| - 1] == a + b[..|b| - 1];
    }
  }

  // ---------------------------------------------------------------- credits

  /** Of the readings, the first that is positive counts; without any, the last. */
  lemma {:induction false} ReadingIs(readings: seq<int>, k: nat)
    requires k < |readings| && forall j :: 0 <= j < k ==> readings[j] <= 0
    requires readings[k] > 0 || k == |readings| - 1
    ensures Reading(readings) == readings[k]
    decreases |readings|
  {
    if k > 0 {
      ReadingIs(readings[1..], k - 1);
    }
  }

  /** The credits that a call goes by: those that are left, or, when there are none, a new reading. */
  function Avail(t: Tx, i: Input): int
    requires ValidInput(i)
  {
    if t.avail > 0 then t.avail else Reading(i.readings)
  }

  // ---------------------------------------------------------------- one call

  /** The aggregate is as many records as were counted. */
  ghost predicate Matches(t: Tx) {
    t.count == |t.packed| && t.aggr == Pack(t.packed)
  }

  /** A call takes the frame at the head of the queue exactly when there are credits and they are not
      used up by the aggregate. */
  predicate Takes(t: Tx, i: Input)
    requires ValidInput(i)
  {
    Avail(t, i) > 0 && |t.packed| != Avail(t, i) && i.pkt.Some?
  }

  /** A block goes out exactly when the aggregate has used up the credits, or a frame is taken and it
      was the last or a command is waiting. It carries all that was packed, and the frame taken, in
      order, and costs one credit for each; without a block, nothing is sent and no credit spent. */
  lemma SendsIff(t: Tx, i: Input)
    requires Matches(t) && ValidInput(i)
    ensures var r, avail := Send(t, i), Avail(t, i);
      var all := t.packed + (if Takes(t, i) then [i.pkt.value] else []);
      var goes := avail > 0 && (|t.packed| == avail || (Takes(t, i) && (i.last || i.cmd)));
      && r.block == (if goes then Some(Transfer(Pack(all))) else None)
      && r.tx.sent == (if goes then t.sent + all else t.sent)
      && r.tx.packed == (if goes then [] else all)
      && r.tx.avail == (if goes then avail - |all| else avail)
      && Matches(r.tx)
  {
    hide Fits, Pack, Record, Reading, Transfer;
    assert t.packed + [] == t.packed;
    if i.pkt.Some? {
      PackAppend(t.packed, i.pkt.value);
    }
    assert Pack([]) == [] by { NoRecords([]); }
    NoRecords(t.packed);
  }

  lemma NoRecords(ps: seq<Pkt>)
    ensures Pack(ps) == [] <==> ps == []
  {
  }

  // ---------------------------------------------------------------- a burst over the queue

  /** The queue is served: one call for every element of `gets`, the readings that it gets, while
      frames are queued and no command comes. */
  function Serve(t: Tx, q: seq<Pkt>, gets: seq<seq<int>>): (Tx, seq<Pkt>)
    requires forall k :: 0 <= k < |gets| ==> |gets[k]| == 6
    requires forall k :: 0 <= k < |q| ==> Fits(q[k])
    decreases |gets|
  {
    if q == [] || gets == [] then (t, q)
    else
      var i := Input(gets[0], Some(q[0]), |q| == 1, false);
      Serve(Send(t, i).tx, if Takes(t, i) then q[1..] else q, gets[1..])
  }

  /** One of the readings grants credits. */
  ghost predicate Granting(readings: seq<int>) {
    exists k :: 0 <= k < |readings| && readings[k] > 0
  }

  lemma {:induction false} GrantingReads(readings: seq<int>)
    requires readings != [] && Granting(readings)
    ensures Reading(readings) > 0
    decreases |readings|
  {
    if |readings| > 1 && readings[0] <= 0 {
      var k :| 0 <= k < |readings| && readings[k] > 0;
      assert readings[1..][k - 1] == readings[k];
      GrantingReads(readings[1..]);
    }
  }

  lemma HeadMoves(sent: seq<Pkt>, packed: seq<Pkt>, q: seq<Pkt>)
    requires q != []
    ensures sent + (packed + [q[0]]) + q[1..] == sent + packed + q
    ensures sent + packed + [] + q == sent + packed + q
  {
  }

  /** While the chip goes on granting credits, two calls for each queued frame and one more send every
      frame, those packed before and then the queue, in order, and leave no frame behind. */
  lemma {:induction false} DrainsInOrder(t: Tx, q: seq<Pkt>, gets: seq<seq<int>>)
    requires Inv(t) && q != [] && (forall k :: 0 <= k < |q| ==> Fits(q[k]))
    requires forall k :: 0 <= k < |gets| ==> |gets[k]| == 6 && Granting(gets[k])
    requires |gets| >= 2 * |q| + (if t.avail > 0 && |t.packed| == t.avail then 1 else 0)
    ensures var (r, left) := Serve(t, q, gets); left == [] && r.packed == [] && r.sent == t.sent + t.packed + q
    decreases |gets|
  {
    hide Fits, Pack, Transfer, Granting, Send, Reading;
    var i := Input(gets[0], Some(q[0]), |q| == 1, false);
    GrantingReads(gets[0]);
    SendInv(t, i);
    SendsIff(t, i);
    var u := Send(t, i).tx;
    HeadMoves(t.sent, t.packed, q);
    if Takes(t, i) {
      if |q| == 1 {
        assert q[1..] == [];
        assert Serve(u, q[1..], gets[1..]) == (u, q[1..]);
      } else {
        DrainsInOrder(u, q[1..], gets[1..]);
      }
    } else {
      DrainsInOrder(u, q, gets[1..]);
      assert t.packed + [] == t.packed;
    }
  }
}
