/** When the TCP ACK coalescer lets an ACK through, for how long a send counts as in flight, and when
    a flow loses its slot. */
module TcpAckLaws {
  import opened TcpAckInvariant
  import opened TcpAckSpec
  import opened TcpAckTenancy
  import opened Words

  // ---------------------------------------------------------------- which ACKs leave

  /** The number of the last push marker of the events, or of the one that stood before them. */
  function LastMarker(s: Slot, es: seq<SlotEvent>): Option<u32> {
    if es == [] then (if s.pshFlag then Some(s.pshSeq) else None)
    else if es[|es| - 1].Psh? then Some(es[|es| - 1].ackNo)
    else LastMarker(s, es[..|es| - 1])
  }

  /** The events that are ACKs not older than the newest one before them. */
  function NotOlder(s: Slot, es: seq<SlotEvent>): nat {
    if es == [] then 0
    else
      var before, last := es[..|es| - 1], es[|es| - 1];
      NotOlder(s, before) + (if last.Ack? && Before(SlotRun(s, before).slot.ackNo, last.msg.ackNo) then 1 else 0)
  }

  lemma Nothing(s: Slot)
    ensures SlotRun(s, []) == SlotEffect(s, [], [])
  {
  }

  lemma RunLast(s: Slot, es: seq<SlotEvent>)
    requires es != []
    ensures var before := SlotRun(s, es[..|es| - 1]);
      var last := SlotStep(before.slot, es[|es| - 1]);
      SlotRun(s, es) == SlotEffect(last.slot, before.out + last.out, before.lost + last.lost)
  {
    SlotRunConcat(s, es[..|es| - 1], [es[|es| - 1]]);
    assert es[..|es| - 1] + [es[|es| - 1]] == es;
    Unfold1(SlotRun(s, es[..|es| - 1]).slot, es[|es| - 1]);
  }

  /** While nothing leaves, the marker that stands is the last one, and each ACK that is not older has
      been counted. */
  lemma {:induction false} WhileNothingLeaves(s: Slot, es: seq<SlotEvent>)
    requires s.busy && SlotRun(s, es).out == []
    ensures var t := SlotRun(s, es).slot;
      && t.busy && t.dropCnt == s.dropCnt + NotOlder(s, es)
      && LastMarker(s, es) == if t.pshFlag then Some(t.pshSeq) else None
    decreases |es|
  {
    hide Before, SlotRun;
    if es == [] {
      Nothing(s);
    } else {
      RunLast(s, es);
      WhileNothingLeaves(s, es[..|es| - 1]);
    }
  }

  /** An ACK that is not older than the newest one of its flow leaves at once exactly when the last
      push marker has a number strictly before it, or when no send is in flight and it is at least
      the tenth since the last departure; every other one is held.  `s` is the slot right after that
      departure, or any other state, and `es` what it sees from then on. */
  lemma LeavesAtOnceIff(s: Slot, es: seq<SlotEvent>, m: Msg, now: nat, winScale: u16)
    requires s.busy && SlotRun(s, es).out == []
    requires var newest := SlotRun(s, es).slot.ackNo; Gap(newest, m.ackNo) >= 0
    ensures var t := SlotRun(s, es).slot;
      var r := SlotStep(t, Ack(m, now, winScale));
      && (r.out == [m] <==>
            || (LastMarker(s, es).Some? && 0 < Gap(LastMarker(s, es).value, m.ackNo) < 0x8000_0000)
            || (t.inSend.None? && s.dropCnt + NotOlder(s, es) + 1 >= 10))
      && (r.out == [m] ==> r.slot.msgbuf.None? && r.slot.inSend == Some(m) && r.slot.dropCnt == 0)
      && (r.out != [m] ==> r.out == [] && r.slot.msgbuf == Some(m) && r.slot.inSend == t.inSend)
      && r.slot.ackNo == m.ackNo && r.slot.lastTime == now
      && r.lost == AsSeq(t.msgbuf)
  {
    hide Gap, LastMarker, NotOlder, SlotRun, Wrap32;
    WhileNothingLeaves(s, es);
    var newest := SlotRun(s, es).slot.ackNo;
    BeforeIsGap(newest, m.ackNo);
    if LastMarker(s, es).Some? {
      GapOpposite(LastMarker(s, es).value, m.ackNo);
    }
  }

  /** Not to precede is to be strictly behind, by less than half the range. */
  lemma GapOpposite(a: u32, b: u32)
    ensures !Before(b, a) <==> 0 < Gap(a, b) < 0x8000_0000
  {
  }

  /** An older ACK is freed and changes nothing but the time of the slot. */
  lemma OlderIsFreed(t: Slot, m: Msg, now: nat, winScale: u16)
    requires Gap(t.ackNo, m.ackNo) < 0
    ensures var r := SlotStep(t, Ack(m, now, winScale));
      r.out == [] && r.lost == [m] && r.slot == Scale(t, winScale).(lastTime := now)
  {
    BeforeIsGap(t.ackNo, m.ackNo);
  }

  /** A departure resets the count; the timer lets the held ACK out exactly when no send is in
      flight. */
  lemma TimerSendsIff(t: Slot)
    requires t.busy
    ensures var r := SlotStep(t, Timer);
      && r.out == (if t.msgbuf.Some? && t.inSend.None? then [t.msgbuf.value] else []) && r.lost == []
      && (r.out != [] ==> r.slot.msgbuf.None? && r.slot.inSend == t.msgbuf && r.slot.dropCnt == 0)
      && (r.out == [] ==> r.slot == t)
  {
  }

  // ---------------------------------------------------------------- the push marker

  predicate NoneBehind(es: seq<SlotEvent>, n: u32) {
    forall i :: 0 <= i < |es| ==> !es[i].Psh? && (es[i].Ack? ==> Before(es[i].msg.ackNo, n))
  }

  /** A push marker stands as long as no ACK behind it comes. */
  lemma {:induction false} MarkerStands(s: Slot, n: u32, es: seq<SlotEvent>)
    requires s.busy && s.pshFlag && s.pshSeq == n && NoneBehind(es, n)
    ensures var t := SlotRun(s, es).slot; t.busy && t.pshFlag && t.pshSeq == n
    decreases |es|
  {
    if es != [] {
      assert NoneBehind(es[1..], n) && (es[0].Ack? ==> Before(es[0].msg.ackNo, n));
      MarkerStands(SlotStep(s, es[0]).slot, n, es[1..]);
    }
  }

  /** After a push marker and any events without an ACK behind it, the first ACK behind it leaves at
      once, whatever is in flight; the marker is used up and the ACK is not counted. */
  lemma MarkerAnswered(s: Slot, n: u32, es: seq<SlotEvent>, m: Msg, now: nat, winScale: u16)
    requires s.busy && NoneBehind(es, n)
    requires var t := SlotRun(s, [Psh(n)] + es).slot; Before(t.ackNo, m.ackNo) && !Before(m.ackNo, n)
    ensures var t := SlotRun(s, [Psh(n)] + es).slot;
      var r := SlotStep(t, Ack(m, now, winScale));
      r.out == [m] && r.slot.inSend == Some(m) && !r.slot.pshFlag && r.slot.dropCnt == 0
  {
    assert ([Psh(n)] + es)[1..] == es;
    MarkerStands(SlotStep(s, Psh(n)).slot, n, es);
  }

  // ---------------------------------------------------------------- in flight

  /** A message that left is in flight until its report, or until another one leaves. */
  lemma {:induction false} InFlightUntilReported(s: Slot, m: Msg, es: seq<SlotEvent>)
    requires s.busy && s.inSend == Some(m) && SlotRun(s, es).out == []
    ensures SlotRun(s, es).slot.inSend == if Reported(m) in es then None else Some(m)
    decreases |es|
  {
    hide Before, SlotRun, NotOlder, LastMarker;
    if es == [] {
      Nothing(s);
    } else {
      RunLast(s, es);
      WhileNothingLeaves(s, es[..|es| - 1]);
      InFlightUntilReported(s, m, es[..|es| - 1]);
    }
  }

  // ---------------------------------------------------------------- who loses a slot

  /** An outgoing packet takes a slot from its flow exactly when both the table's last scan and the
      slot's last ACK are more than the timeout ago. */
  lemma LosesSlotIff(m: Manage, now: nat, timeout: nat, i: nat)
    requires Inv(m) && i < 32 && timeout < 0x4000_0000_0000_0000
    requires m.lastTime <= now < m.lastTime + 0x4000_0000_0000_0000
    requires |m.slots| == 32 && m.slots[i].busy && m.slots[i].lastTime <= now
    requires now < m.slots[i].lastTime + 0x4000_0000_0000_0000
    ensures var r := Update(m, now, timeout);
      && |r.slots| == 32
      && (!r.slots[i].busy <==> now - m.lastTime > timeout && now - m.slots[i].lastTime > timeout)
  {
    hide Inv, TimeAfter;
    LaterIff(now, m.lastTime, timeout);
    LaterIff(now, m.slots[i].lastTime, timeout);
    if now - m.lastTime > timeout {
      ScanExpires(m, now, timeout, i);
    }
  }

  lemma ScanExpires(m: Manage, now: nat, timeout: nat, i: nat)
    requires Inv(m) && i < |m.slots|
    ensures var r := ExpireDown(m.(lastTime := now), |m.slots|, now, timeout);
      r.slots[i] == if Overdue(m.slots[i], now, timeout) then m.slots[i].(busy := false) else m.slots[i]
  {
    hide Overdue, ExpireDown;
    ExpireInv(m.(lastTime := now), |m.slots|, now, timeout);
  }

  lemma LaterIff(now: nat, last: nat, timeout: nat)
    requires last <= now < last + 0x4000_0000_0000_0000 && timeout < 0x4000_0000_0000_0000
    ensures TimeAfter(now, last + timeout) <==> now - last > timeout
  {
  }

  /** A flow that is new to the table gets its first ACK through and its second one too, when it is
      not older and nothing is in flight. */
  lemma FirstTwoLeave(s: Slot, first: Msg, second: Msg, winScale: u16, t0: nat, t1: nat)
    requires s.inSend.None? && Gap(first.ackNo, second.ackNo) >= 0
    ensures SlotStep(Fresh(s, first, winScale, t0), Ack(second, t1, 0)).out == [second]
  {
    BeforeIsGap(first.ackNo, second.ackNo);
  }

  // ---------------------------------------------------------------- the table

  /** A received segment with the push flag marks the slot of its flow and changes nothing else. */
  lemma ReceiveMarks(m: Manage, flow: Flow, n: u32, i: nat, timeout: nat)
    requires Inv(m) && m.enable && i < |m.slots| && m.slots[i].busy && m.slots[i].flow == flow
    ensures Step(m, Receive(flow, n), timeout).state
            == m.(slots := m.slots[i := m.slots[i].(pshFlag := true, pshSeq := n)])
  {
  }

  /** After such a segment the next ACK of the flow that is not older than its newest and behind the
      segment passes the filter, whatever is in flight. */
  lemma PushedAckPasses(m: Manage, n: u32, msg: Msg, winScale: u16, now: nat, i: nat, timeout: nat)
    requires Inv(m) && m.enable && i < |m.slots| && m.slots[i].busy && m.slots[i].flow == msg.flow
    requires Before(m.slots[i].ackNo, msg.ackNo) && !Before(msg.ackNo, n)
    requires var marked := Step(m, Receive(msg.flow, n), timeout).state;
      |Update(marked, now, timeout).slots| == |m.slots| && Update(marked, now, timeout).slots[i].busy
    ensures var marked := Step(m, Receive(msg.flow, n), timeout).state;
      var r := Step(marked, Send(msg, true, winScale, now), timeout);
      r.passed == [msg] && r.consumed == [] && r.sent == []
  {
    hide Inv, Step, StepSend, Update;
    ReceiveMarks(m, msg.flow, n, i, timeout);
    StepInv(m, Receive(msg.flow, n), timeout);
    PassesAtOnce(Step(m, Receive(msg.flow, n), timeout).state, msg, winScale, now, i, timeout);
  }

  lemma PassesAtOnce(m: Manage, msg: Msg, winScale: u16, now: nat, i: nat, timeout: nat)
    requires Inv(m) && m.enable && i < |m.slots| && m.slots[i].busy && m.slots[i].flow == msg.flow
    requires Before(m.slots[i].ackNo, msg.ackNo) && m.slots[i].pshFlag && !Before(msg.ackNo, m.slots[i].pshSeq)
    requires Update(m, now, timeout).slots[i].busy
    ensures var r := Step(m, Send(msg, true, winScale, now), timeout);
      r.passed == [msg] && r.consumed == [] && r.sent == []
  {
    hide Inv, Update, Before;
    MatchIsFlow(m, msg.flow, i, now, timeout);
  }

  /** The report that a message was sent ends its flight, in whichever busy slot it is. */
  lemma SentEndsFlight(m: Manage, msg: Msg, i: nat, timeout: nat)
    requires m.enable && i < |m.slots| && m.slots[i].busy
    ensures Step(m, Sent(msg), timeout).state.slots[i]
            == if m.slots[i].inSend == Some(msg) then m.slots[i].(inSend := None) else m.slots[i]
  {
  }

  /** What is not an ACK, belongs to a flow without a slot, or comes while the coalescer is stopped,
      passes. */
  lemma OthersPass(m: Manage, msg: Msg, isAck: bool, winScale: u16, now: nat, timeout: nat)
    requires Inv(m)
    requires !isAck || !m.enable
             || forall j :: 0 <= j < |m.slots| ==> !(m.slots[j].busy && m.slots[j].flow == msg.flow)
    ensures var r := Step(m, Send(msg, isAck, winScale, now), timeout);
      r.passed == [msg] && r.consumed == [] && r.dropped == [] && r.sent == []
  {
    UpdateInv(m, now, timeout);
  }
}
