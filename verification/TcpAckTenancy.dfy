/** One slot from the moment a flow is given it until it expires: the order in which ACKs leave,
    and which of them are lost. */
module TcpAckTenancy {
  import opened Words
  import opened TcpAckSpec
  import opened TcpAckInvariant

  /** What a slot sees of a run: an ACK of its flow while filtering is enabled, its timer, the push
      marker of a received segment, and the report that a message has been sent. */
  datatype SlotEvent =
    | Ack(msg: Msg, now: nat, winScale: u16)
    | Timer
    | Psh(ackNo: u32)
    | Reported(msg: Msg)

  datatype SlotEffect = SlotEffect(slot: Slot, out: seq<Msg>, lost: seq<Msg>)

  function SlotStep(s: Slot, e: SlotEvent): SlotEffect {
    match e
    case Ack(msg, now, winScale) =>
      var h := Handle(Scale(s, winScale), msg, now);
      SlotEffect(h.slot, if h.ret then [] else [msg], h.dropped)
    case Timer =>
      var t := Fire(s);
      SlotEffect(t, if t.msgbuf == s.msgbuf then [] else AsSeq(s.msgbuf), [])
    case Psh(ackNo) => SlotEffect(Push(s, ackNo), [], [])
    case Reported(msg) => SlotEffect(Report(s, msg), [], [])
  }

  function SlotRun(s: Slot, es: seq<SlotEvent>): SlotEffect
    decreases |es|
  {
    if es == [] then SlotEffect(s, [], [])
    else
      var first := SlotStep(s, es[0]);
      var rest := SlotRun(first.slot, es[1..]);
      SlotEffect(rest.slot, first.out + rest.out, first.lost + rest.lost)
  }

  // ---------------------------------------------------------------- slots of the table are tenancies

  /** The slot stays with its tenant during a step: it is busy, is not expired by it, and the
      coalescer is running. */
  predicate Stays(m: Manage, e: Event, i: nat, timeout: nat) {
    && m.enable && i < |m.slots| && m.slots[i].busy && e != Deinit
    && (e.Send? ==> Update(m, e.now, timeout).slots[i].busy)
  }

  /** What slot `i` sees of a step. */
  function View(m: Manage, e: Event, i: nat, timeout: nat): seq<SlotEvent>
    requires i < |m.slots|
  {
    match e
    case Send(msg, isAck, winScale, now) =>
      if isAck && Match(Update(m, now, timeout).slots, msg.flow, 0) == i then [Ack(msg, now, winScale)] else []
    case Receive(flow, ackNo) => if Match(m.slots, flow, 0) == i then [Psh(ackNo)] else []
    case Timeout(j) => if j == i then [Timer] else []
    case Sent(msg) => [Reported(msg)]
    case Deinit => []
  }

  lemma Unfold1(s: Slot, e: SlotEvent)
    ensures SlotRun(s, [e]) == SlotStep(s, e)
  {
    assert [e][1..] == [];
    assert SlotRun(SlotStep(s, e).slot, []) == SlotEffect(SlotStep(s, e).slot, [], []);
  }

  /** The step lets a message of slot `i` out or frees one: an ACK of the flow it serves, or its
      timer. */
  predicate Concerns(m: Manage, e: Event, i: nat)
    requires i < |m.slots|
  {
    match e
    case Send(msg, isAck, _, _) => isAck && msg.flow == m.slots[i].flow
    case Timeout(j) => j == i
    case _ => false
  }

  /** What such a step transmits from the timer or lets through, and what it frees. */
  function Left(m: Manage, e: Event, i: nat, timeout: nat): seq<Msg>
    requires i < |m.slots|
  {
    if Concerns(m, e, i) then Step(m, e, timeout).sent + Step(m, e, timeout).passed else []
  }

  function Lost(m: Manage, e: Event, i: nat, timeout: nat): seq<Msg>
    requires i < |m.slots|
  {
    if Concerns(m, e, i) then Step(m, e, timeout).dropped else []
  }

  /** An ACK finds a slot exactly by the flow that the slot serves. */
  lemma MatchIsFlow(m: Manage, flow: Flow, i: nat, now: nat, timeout: nat)
    requires Inv(m) && i < |m.slots| && Update(m, now, timeout).slots[i].busy
    ensures Match(Update(m, now, timeout).slots, flow, 0) == i <==> flow == m.slots[i].flow
    ensures Update(m, now, timeout).slots[i] == m.slots[i] && Update(m, now, timeout).enable == m.enable
  {
    UpdateInv(m, now, timeout);
  }

  /** While a slot stays with its tenant, a step changes it as the slot events it sees say, and what
      leaves the table and what is freed on its account is what these events let out and free. */
  lemma StepIsSlotRun(m: Manage, e: Event, i: nat, timeout: nat)
    requires Inv(m) && Stays(m, e, i, timeout)
    ensures |Step(m, e, timeout).state.slots| == |m.slots|
    ensures SlotRun(m.slots[i], View(m, e, i, timeout))
            == SlotEffect(Step(m, e, timeout).state.slots[i], Left(m, e, i, timeout), Lost(m, e, i, timeout))
  {
    var v := View(m, e, i, timeout);
    if v != [] {
      Unfold1(m.slots[i], v[0]);
    }
    match e
    case Send(msg, isAck, winScale, now) => SendIsSlotStep(m, msg, isAck, winScale, now, i, timeout);
    case Receive(flow, ackNo) =>
    case Timeout(j) =>
    case Sent(msg) =>
    case Deinit =>
  }

  lemma SendIsSlotStep(m: Manage, msg: Msg, isAck: bool, winScale: u16, now: nat, i: nat, timeout: nat)
    requires Inv(m) && Stays(m, Send(msg, isAck, winScale, now), i, timeout)
    ensures var r := StepSend(m, msg, isAck, winScale, now, timeout);
      if isAck && msg.flow == m.slots[i].flow then
        SlotStep(m.slots[i], Ack(msg, now, winScale)) == SlotEffect(r.state.slots[i], r.sent + r.passed, r.dropped)
      else r.state.slots[i] == m.slots[i]
    ensures Match(Update(m, now, timeout).slots, msg.flow, 0) == i <==> msg.flow == m.slots[i].flow
  {
    MatchIsFlow(m, msg.flow, i, now, timeout);
    var m1 := Update(m, now, timeout);
    if isAck && Match(m1.slots, msg.flow, 0) < 0 {
      UpdateInv(m, now, timeout);
      AllocFindsIdle(m1);
    }
  }

  function TableView(m: Manage, es: seq<Event>, i: nat, timeout: nat): seq<SlotEvent>
    decreases |es|
  {
    if es == [] || i >= |m.slots| then []
    else View(m, es[0], i, timeout) + TableView(Step(m, es[0], timeout).state, es[1..], i, timeout)
  }

  predicate StaysThroughout(m: Manage, es: seq<Event>, i: nat, timeout: nat)
    decreases |es|
  {
    es == [] || (Stays(m, es[0], i, timeout) && StaysThroughout(Step(m, es[0], timeout).state, es[1..], i, timeout))
  }

  /** What a run lets out, and what it frees, on account of slot `i`: of each step that concerns the
      slot, the messages transmitted and let through, and the messages freed. */
  function Leaves(m: Manage, es: seq<Event>, i: nat, timeout: nat): seq<Msg>
    decreases |es|
  {
    if es == [] || i >= |m.slots| then []
    else Left(m, es[0], i, timeout) + Leaves(Step(m, es[0], timeout).state, es[1..], i, timeout)
  }

  function Frees(m: Manage, es: seq<Event>, i: nat, timeout: nat): seq<Msg>
    decreases |es|
  {
    if es == [] || i >= |m.slots| then []
    else Lost(m, es[0], i, timeout) + Frees(Step(m, es[0], timeout).state, es[1..], i, timeout)
  }

  function After(first: SlotEffect, b: seq<SlotEvent>): SlotEffect {
    var rest := SlotRun(first.slot, b);
    SlotEffect(rest.slot, first.out + rest.out, first.lost + rest.lost)
  }

  lemma AfterAfter(first: SlotEffect, r: SlotEffect, b: seq<SlotEvent>)
    ensures var t := After(r, b);
      After(SlotEffect(r.slot, first.out + r.out, first.lost + r.lost), b)
      == SlotEffect(t.slot, first.out + t.out, first.lost + t.lost)
  {
  }

  lemma {:induction false} SlotRunConcat(s: Slot, a: seq<SlotEvent>, b: seq<SlotEvent>)
    ensures SlotRun(s, a + b) == After(SlotRun(s, a), b)
    decreases |a|
  {
    if a == [] {
      assert a + b == b;
    } else {
      var first := SlotStep(s, a[0]);
      assert (a + b)[0] == a[0] && (a + b)[1..] == a[1..] + b;
      SlotRunConcat(first.slot, a[1..], b);
      AfterAfter(first, SlotRun(first.slot, a[1..]), b);
    }
  }

  /** The same over whole runs of the table. */
  lemma {:induction false} RunIsSlotRun(m: Manage, es: seq<Event>, i: nat, timeout: nat)
    requires Inv(m) && i < |m.slots| && StaysThroughout(m, es, i, timeout)
    ensures |Run(m, es, timeout).state.slots| == |m.slots|
    ensures SlotRun(m.slots[i], TableView(m, es, i, timeout))
            == SlotEffect(Run(m, es, timeout).state.slots[i], Leaves(m, es, i, timeout), Frees(m, es, i, timeout))
    decreases |es|
  {
    if es != [] {
      var m1 := Step(m, es[0], timeout).state;
      StepIsSlotRun(m, es[0], i, timeout);
      StepInv(m, es[0], timeout);
      RunIsSlotRun(m1, es[1..], i, timeout);
      SlotRunConcat(m.slots[i], View(m, es[0], i, timeout), TableView(m1, es[1..], i, timeout));
    }
  }

  // ---------------------------------------------------------------- unwrapped order

  /** The distance from `a` to `b` in 32-bit sequence space, the far half counted backwards. */
  function Gap(a: u32, b: u32): int {
    var d := Wrap32(b - a);
    if d <= 0x8000_0000 then d else d - 0x1_0000_0000
  }

  lemma BeforeIsGap(a: u32, b: u32)
    ensures Before(a, b) <==> 0 <= Gap(a, b)
    ensures Wrap32(a + Gap(a, b)) == b
    ensures Gap(a, a) == 0
  {
  }

  /** A tenancy with unwrapped acknowledgement numbers: the newest one seen, those that left the
      filter, and those that were dropped, in order. */
  datatype Tenancy = Tenancy(slot: Slot, newest: int, out: seq<int>, lost: seq<int>)

  function Lift(t: Tenancy, m: Msg): int {
    t.newest + Gap(t.slot.ackNo, m.ackNo)
  }

  function LiftAll(t: Tenancy, ms: seq<Msg>): seq<int> {
    seq(|ms|, i requires 0 <= i < |ms| => Lift(t, ms[i]))
  }

  function Track(t: Tenancy, e: SlotEvent): Tenancy {
    var r := SlotStep(t.slot, e);
    Tenancy(r.slot,
            if e.Ack? && Lift(t, e.msg) >= t.newest then Lift(t, e.msg) else t.newest,
            t.out + LiftAll(t, r.out), t.lost + LiftAll(t, r.lost))
  }

  function TrackAll(t: Tenancy, es: seq<SlotEvent>): Tenancy
    decreases |es|
  {
    if es == [] then t else TrackAll(Track(t, es[0]), es[1..])
  }

  ghost predicate NonDecreasing(s: seq<int>) {
    forall i, j :: 0 <= i <= j < |s| ==> s[i] <= s[j]
  }

  /** ACKs have left in non-decreasing order, no dropped ACK is newer than the newest one, and the
      newest one is held or was the last to leave. */
  ghost predicate InOrder(t: Tenancy) {
    && Wrap32(t.newest) == t.slot.ackNo && t.slot.busy
    && (t.slot.msgbuf.Some? ==> t.slot.msgbuf.value.ackNo == t.slot.ackNo)
    && t.out != [] && NonDecreasing(t.out) && t.out[|t.out| - 1] <= t.newest
    && (forall u :: u in t.lost ==> u <= t.newest)
    && (t.slot.msgbuf.Some? || t.out[|t.out| - 1] == t.newest)
  }

  lemma LiftCongruent(t: Tenancy, m: Msg)
    requires Wrap32(t.newest) == t.slot.ackNo
    ensures Wrap32(Lift(t, m)) == m.ackNo
    ensures m.ackNo == t.slot.ackNo ==> Lift(t, m) == t.newest
    ensures Before(t.slot.ackNo, m.ackNo) <==> t.newest <= Lift(t, m)
  {
    hide Gap;
    BeforeIsGap(t.slot.ackNo, m.ackNo);
  }

  lemma TrackAck(t: Tenancy, e: SlotEvent)
    requires InOrder(t) && e.Ack?
    ensures InOrder(Track(t, e)) && Lift(t, e.msg) <= Track(t, e).newest
    ensures t.newest <= Track(t, e).newest
  {
    hide Lift, Report, Wrap32;
    LiftCongruent(t, e.msg);
    if t.slot.msgbuf.Some? {
      LiftCongruent(t, t.slot.msgbuf.value);
    }
    var r := SlotStep(t.slot, e);
    assert |r.out| <= 1 && |r.lost| <= 1;
    assert r.lost != [] ==> LiftAll(t, r.lost) == [Lift(t, r.lost[0])];
  }

  lemma TrackTimer(t: Tenancy)
    requires InOrder(t)
    ensures InOrder(Track(t, Timer)) && Track(t, Timer).newest == t.newest
  {
    if t.slot.msgbuf.Some? {
      LiftCongruent(t, t.slot.msgbuf.value);
    }
    var r := SlotStep(t.slot, Timer);
    assert LiftAll(t, r.lost) == [];
    assert r.out != [] ==> LiftAll(t, r.out) == [t.newest];
  }

  lemma TrackOther(t: Tenancy, e: SlotEvent)
    requires InOrder(t) && (e.Psh? || e.Reported?)
    ensures InOrder(Track(t, e)) && Track(t, e).newest == t.newest
  {
    assert LiftAll(t, []) == [];
  }

  lemma TrackInOrder(t: Tenancy, e: SlotEvent)
    requires InOrder(t)
    ensures InOrder(Track(t, e)) && t.newest <= Track(t, e).newest
  {
    match e
    case Ack(_, _, _) => TrackAck(t, e);
    case Timer => TrackTimer(t);
    case Psh(_) => TrackOther(t, e);
    case Reported(_) => TrackOther(t, e);
  }

  /** Every event of a tenancy keeps the order. */
  lemma {:induction false} TenancyInOrder(t: Tenancy, es: seq<SlotEvent>)
    requires InOrder(t)
    ensures InOrder(TrackAll(t, es)) && t.newest <= TrackAll(t, es).newest
    ensures TrackAll(t, es).slot == SlotRun(t.slot, es).slot
    decreases |es|
  {
    if es != [] {
      TrackInOrder(t, es[0]);
      TenancyInOrder(Track(t, es[0]), es[1..]);
    }
  }

  /** The unwrapped numbers stand for the messages, one for each, in order. */
  ghost predicate Unwraps(us: seq<int>, ms: seq<Msg>) {
    |us| == |ms| && forall k :: 0 <= k < |us| ==> Wrap32(us[k]) == ms[k].ackNo
  }

  lemma LiftAllUnwraps(t: Tenancy, us: seq<int>, ms: seq<Msg>, more: seq<Msg>)
    requires Wrap32(t.newest) == t.slot.ackNo && Unwraps(us, ms)
    ensures Unwraps(us + LiftAll(t, more), ms + more)
  {
    forall k | 0 <= k < |more|
      ensures Wrap32(LiftAll(t, more)[k]) == more[k].ackNo
    {
      LiftCongruent(t, more[k]);
    }
  }

  /** A tenancy's own record of what left and what was freed has one unwrapped number for each
      message that its events let out or freed. */
  lemma {:induction false} TenancyUnwraps(t: Tenancy, es: seq<SlotEvent>, out: seq<Msg>, lost: seq<Msg>)
    requires InOrder(t) && Unwraps(t.out, out) && Unwraps(t.lost, lost)
    ensures Unwraps(TrackAll(t, es).out, out + SlotRun(t.slot, es).out)
    ensures Unwraps(TrackAll(t, es).lost, lost + SlotRun(t.slot, es).lost)
    decreases |es|
  {
    hide LiftAll, SlotStep;
    if es == [] {
      assert out + [] == out && lost + [] == lost;
    } else {
      var r := SlotStep(t.slot, es[0]);
      var rest := SlotRun(r.slot, es[1..]);
      LiftAllUnwraps(t, t.out, out, r.out);
      LiftAllUnwraps(t, t.lost, lost, r.lost);
      TrackInOrder(t, es[0]);
      TenancyUnwraps(Track(t, es[0]), es[1..], out + r.out, lost + r.lost);
      assert out + r.out + rest.out == out + (r.out + rest.out);
      assert lost + r.lost + rest.lost == lost + (r.lost + rest.lost);
    }
  }

  /** A slot given to a new flow starts a tenancy in order, if nothing was held in it. */
  lemma FreshInOrder(s: Slot, msg: Msg, winScale: u16, now: nat)
    requires s.msgbuf.None?
    ensures InOrder(Tenancy(Fresh(s, msg, winScale, now), msg.ackNo, [msg.ackNo], []))
  {
  }

  /** From the step that gives an idle slot with nothing held to a new flow, and over any further
      run during which the slot stays with that flow: what the table lets out on the slot's account,
      the first ACK included, leaves in non-decreasing unwrapped order; what it frees is not newer
      than the newest; and the newest is held or has left. */
  lemma FlowInOrder(m: Manage, i: nat, msg: Msg, winScale: u16, now: nat, es: seq<Event>, timeout: nat)
    requires Inv(m) && Match(Update(m, now, timeout).slots, msg.flow, 0) < 0
    requires i == Alloc(Update(m, now, timeout)).1 && i < |m.slots| && m.slots[i].msgbuf.None?
    requires StaysThroughout(StepSend(m, msg, true, winScale, now, timeout).state, es, i, timeout)
    ensures |StepSend(m, msg, true, winScale, now, timeout).state.slots| == |m.slots|
    ensures var first := StepSend(m, msg, true, winScale, now, timeout);
      var t := TrackAll(Tenancy(first.state.slots[i], msg.ackNo, [msg.ackNo], []),
                        TableView(first.state, es, i, timeout));
      && first.passed == [msg]
      && InOrder(t) && t.slot == Run(first.state, es, timeout).state.slots[i]
      && Unwraps(t.out, [msg] + Leaves(first.state, es, i, timeout))
      && Unwraps(t.lost, Frees(first.state, es, i, timeout))
  {
    hide Alloc, InOrder, Inv, Match, StepSend, Unwraps, Update;
    FlowStarts(m, i, msg, winScale, now, timeout);
    var m1 := StepSend(m, msg, true, winScale, now, timeout).state;
    TenancyOfRun(m1, Tenancy(m1.slots[i], msg.ackNo, [msg.ackNo], []), msg, i, es, timeout);
  }

  lemma FlowStarts(m: Manage, i: nat, msg: Msg, winScale: u16, now: nat, timeout: nat)
    requires Inv(m) && Match(Update(m, now, timeout).slots, msg.flow, 0) < 0
    requires i == Alloc(Update(m, now, timeout)).1 && i < |m.slots| && m.slots[i].msgbuf.None?
    ensures var first := StepSend(m, msg, true, winScale, now, timeout);
      && first.passed == [msg] && Inv(first.state) && |first.state.slots| == |m.slots|
      && InOrder(Tenancy(first.state.slots[i], msg.ackNo, [msg.ackNo], []))
  {
    hide Fresh, HeldIn, InOrder, Inv, Match, Update;
    UpdateInv(m, now, timeout);
    AllocFindsIdle(Update(m, now, timeout));
    SendInv(m, msg, true, winScale, now, timeout);
    FreshInOrder(Update(m, now, timeout).slots[i], msg, winScale, now);
  }

  lemma TenancyOfRun(m: Manage, t: Tenancy, msg: Msg, i: nat, es: seq<Event>, timeout: nat)
    requires Inv(m) && i < |m.slots| && StaysThroughout(m, es, i, timeout)
    requires t == Tenancy(m.slots[i], msg.ackNo, [msg.ackNo], []) && InOrder(t)
    ensures var r := TrackAll(t, TableView(m, es, i, timeout));
      && |Run(m, es, timeout).state.slots| == |m.slots|
      && InOrder(r) && r.slot == Run(m, es, timeout).state.slots[i]
      && Unwraps(r.out, [msg] + Leaves(m, es, i, timeout)) && Unwraps(r.lost, Frees(m, es, i, timeout))
  {
    hide Frees, InOrder, Inv, Leaves, Run, SlotRun, StaysThroughout, TableView, TrackAll;
    RunIsSlotRun(m, es, i, timeout);
    TenancyInOrder(t, TableView(m, es, i, timeout));
    TenancyUnwraps(t, TableView(m, es, i, timeout), [msg], []);
    assert [] + Frees(m, es, i, timeout) == Frees(m, es, i, timeout);
  }

  // ---------------------------------------------------------------- why the start must be empty

  /** Only messages that arrived during the tenancy leave the slot. */
  ghost predicate OwnOnly(s: Slot, es: seq<SlotEvent>) {
    forall x :: x in SlotRun(s, es).out ==> exists j :: 0 <= j < |es| && es[j].Ack? && es[j].msg == x
  }

  lemma {:induction false} OutputsArrived(s: Slot, es: seq<SlotEvent>)
    ensures forall x :: x in SlotRun(s, es).out ==>
      s.msgbuf == Some(x) || exists j :: 0 <= j < |es| && es[j].Ack? && es[j].msg == x
    decreases |es|
  {
    if es != [] {
      var first := SlotStep(s, es[0]);
      var rest := SlotRun(first.slot, es[1..]);
      OutputsArrived(first.slot, es[1..]);
      forall x | x in first.out + rest.out
        ensures s.msgbuf == Some(x) || exists j :: 0 <= j < |es| && es[j].Ack? && es[j].msg == x
      {
        if x in first.out {
          assert es[0].Ack? ==> es[0].msg == x;
        } else if first.slot.msgbuf == Some(x) {
          assert s.msgbuf == Some(x) || (es[0].Ack? && es[0].msg == x);
        } else {
          var j :| 0 <= j < |es[1..]| && es[1..][j].Ack? && es[1..][j].msg == x;
          assert es[j + 1] == es[1..][j];
        }
      }
    }
  }

  /** filter_send_tcp_ack leaves a message that an expired tenancy still holds in the slot.  A new
      tenancy lets out its own ACKs only, whatever happens, if and only if nothing is held at its
      start. */
  lemma OwnOnlyIffNothingHeld(s: Slot)
    requires s.busy
    ensures (forall es :: OwnOnly(s, es)) <==> s.msgbuf.None?
  {
    if s.msgbuf.None? {
      forall es
        ensures OwnOnly(s, es)
      {
        OutputsArrived(s, es);
      }
    } else {
      var es := (if s.inSend.Some? then [Reported(s.inSend.value)] else []) + [Timer];
      var quiet := if s.inSend.Some? then Report(s, s.inSend.value) else s;
      Unfold1(quiet, Timer);
      if s.inSend.Some? {
        assert es[1..] == [Timer];
      } else {
        assert es == [Timer];
      }
      assert s.msgbuf.value in SlotRun(s, es).out;
      assert !OwnOnly(s, es);
    }
  }

  /** A table in which slot 0 alone may be busy or hold anything. */
  function OneSlot(s: Slot, maxNum: int, freeIndex: int, lastTime: nat): Manage {
    Manage(true, maxNum, freeIndex, lastTime, Init(0).slots[0 := s])
  }

  lemma {:induction false} ExpireFirst(m: Manage, n: nat, now: nat, timeout: nat)
    requires 1 <= n <= |m.slots| && Overdue(m.slots[0], now, timeout)
    requires forall j :: 1 <= j < n ==> !m.slots[j].busy
    ensures ExpireDown(m, n, now, timeout)
            == m.(freeIndex := 0, maxNum := m.maxNum - 1, slots := m.slots[0 := m.slots[0].(busy := false)])
    decreases n
  {
    if n > 1 {
      ExpireFirst(m, n - 1, now, timeout);
    } else {
      assert ExpireDown(ExpireOne(m, 0, now, timeout), 0, now, timeout) == ExpireOne(m, 0, now, timeout);
    }
  }

  /** An ACK of a new flow, when no slot is busy. */
  lemma SendNew(s: Slot, msg: Msg, lastTime: nat, now: nat, timeout: nat)
    requires !s.busy && !TimeAfter(now, lastTime + timeout)
    ensures StepSend(OneSlot(s, 0, 0, lastTime), msg, true, 0, now, timeout)
            == Effect(OneSlot(Fresh(s, msg, 0, now), 1, -1, lastTime), [], [msg], [], [])
  {
    hide ExpireOne, Handle, Scale, Wrap64;
    var m := OneSlot(s, 0, 0, lastTime);
    assert Match(m.slots, msg.flow, 0) == -1;
    assert m.slots[0 := Fresh(s, msg, 0, now)] == OneSlot(Fresh(s, msg, 0, now), 1, -1, lastTime).slots;
  }

  /** An ACK of the flow in slot 0. */
  lemma SendKnown(s: Slot, msg: Msg, lastTime: nat, now: nat, timeout: nat)
    requires s.busy && s.flow == msg.flow && !TimeAfter(now, lastTime + timeout)
    ensures var h := Handle(s, msg, now);
      StepSend(OneSlot(s, 1, -1, lastTime), msg, true, 0, now, timeout)
      == Effect(OneSlot(h.slot, 1, -1, lastTime),
                if h.ret then [msg] else [], if h.ret then [] else [msg], h.dropped, [])
  {
    var m := OneSlot(s, 1, -1, lastTime);
    assert Match(m.slots, msg.flow, 0) == 0;
    assert m.slots[0 := Handle(s, msg, now).slot] == OneSlot(Handle(s, msg, now).slot, 1, -1, lastTime).slots;
  }

  /** An ACK of a new flow, when slot 0 is overdue: the slot changes hands. */
  lemma SendExpiring(s: Slot, msg: Msg, lastTime: nat, now: nat, timeout: nat)
    requires TimeAfter(now, lastTime + timeout) && Overdue(s, now, timeout)
    ensures StepSend(OneSlot(s, 1, -1, lastTime), msg, true, 0, now, timeout)
            == Effect(OneSlot(Fresh(s, msg, 0, now), 1, -1, now), [], [msg], [], [])
  {
    var m := OneSlot(s, 1, -1, lastTime);
    var idle := s.(busy := false);
    ExpireFirst(m.(lastTime := now), |m.slots|, now, timeout);
    assert Update(m, now, timeout).slots == OneSlot(idle, 0, 0, now).slots;
    assert Match(Update(m, now, timeout).slots, msg.flow, 0) == -1;
    assert Fresh(idle, msg, 0, now) == Fresh(s, msg, 0, now);
    var t := Fresh(s, msg, 0, now);
    assert Update(m, now, timeout).slots[0 := t] == OneSlot(t, 1, -1, now).slots;
  }

  function ThreeAcks(flow: Flow): seq<Event> {
    [Send(Msg(1, flow, 1), true, 0, 0), Send(Msg(2, flow, 2), true, 0, 0), Send(Msg(3, flow, 3), true, 0, 0)]
  }

  lemma ThreeSteps(m: Manage, es: seq<Event>, timeout: nat)
    requires |es| == 3
    ensures var a := Step(m, es[0], timeout);
      var b := Step(a.state, es[1], timeout);
      var c := Step(b.state, es[2], timeout);
      && Run(m, es, timeout).state == c.state
      && Run(m, es, timeout).consumed == a.consumed + b.consumed + c.consumed
  {
    var a := Step(m, es[0], timeout);
    var b := Step(a.state, es[1], timeout);
    var c := Step(b.state, es[2], timeout);
    assert es[1..][0] == es[1] && es[1..][1..] == es[2..] && es[2..][0] == es[2] && es[2..][1..] == [];
    assert Run(c.state, [], timeout) == Effect(c.state, [], [], [], []);
    assert Run(b.state, es[2..], timeout).consumed == c.consumed + [];
  }

  /** The slot after three ACKs of a flow: the second in flight, the third held. */
  function Holding(flow: Flow): Slot {
    Slot(true, 1, false, 0, 1, 0, Some(Msg(3, flow, 3)), Some(Msg(2, flow, 2)), flow, 3)
  }

  lemma ThreeAcksHold(flow: Flow, timeout: nat)
    requires timeout < 0x8000_0000_0000_0000
    ensures Run(Init(0), ThreeAcks(flow), timeout).state == OneSlot(Holding(flow), 1, -1, 0)
    ensures Run(Init(0), ThreeAcks(flow), timeout).consumed == [Msg(3, flow, 3)]
  {
    hide Map, Match, Run, StepSend;
    var s0 := Init(0).slots[0];
    var s1 := Fresh(s0, Msg(1, flow, 1), 0, 0);
    var s2 := Handle(s1, Msg(2, flow, 2), 0).slot;
    assert Init(0) == OneSlot(s0, 0, 0, 0);
    SendNew(s0, Msg(1, flow, 1), 0, 0, timeout);
    SendKnown(s1, Msg(2, flow, 2), 0, 0, timeout);
    SendKnown(s2, Msg(3, flow, 3), 0, 0, timeout);
    ThreeSteps(Init(0), ThreeAcks(flow), timeout);
  }

  /** The report that the second was sent, and the timer, for whichever flow the slot serves now. */
  lemma HeldIsSent(s: Slot, lastTime: nat, timeout: nat)
    requires s.busy && s.inSend.Some? && s.msgbuf.Some?
    ensures var reported := Step(OneSlot(s, 1, -1, lastTime), Sent(s.inSend.value), timeout);
      && |reported.state.slots| == SLOTS
      && Step(reported.state, Timeout(0), timeout).sent == [s.msgbuf.value]
  {
    var reported := Step(OneSlot(s, 1, -1, lastTime), Sent(s.inSend.value), timeout);
    assert reported.state.slots[0] == Report(s, s.inSend.value) == s.(inSend := None);
  }

  /** Such a start is reached: the second ACK of a flow is in flight, the third is held, and then an
      ACK of another flow comes after the timeout.  When the second has been reported as sent, the
      timer sends the third on behalf of a slot that serves the other flow. */
  lemma InheritedMessage(one: Flow, two: Flow, timeout: nat)
    requires one != two && timeout < 0x8000_0000_0000_0000
    ensures var before := Run(Init(0), ThreeAcks(one), timeout);
      var taken := Step(before.state, Send(Msg(4, two, 1), true, 0, timeout + 1), timeout);
      var reported := Step(taken.state, Sent(Msg(2, one, 2)), timeout);
      && before.consumed == [Msg(3, one, 3)] && |taken.state.slots| == SLOTS
      && taken.state.slots[0].busy && taken.state.slots[0].flow == two
      && taken.state.slots[0].msgbuf == Some(Msg(3, one, 3))
      && Step(reported.state, Timeout(0), timeout).sent == [Msg(3, one, 3)]
  {
    hide Init, Report, Run, StepSend, ThreeAcks;
    ThreeAcksHold(one, timeout);
    SendExpiring(Holding(one), Msg(4, two, 1), 0, timeout + 1, timeout);
    HeldIsSent(Fresh(Holding(one), Msg(4, two, 1), 0, timeout + 1), timeout + 1, timeout);
  }

  // ---------------------------------------------------------------- how long ACKs are withheld

  function AcksIn(es: seq<SlotEvent>): nat {
    if es == [] then 0 else AcksIn(es[..|es| - 1]) + (if es[|es| - 1].Ack? then 1 else 0)
  }

  /** Newer ACKs and push markers only. */
  predicate Advancing(s: Slot, es: seq<SlotEvent>)
    decreases |es|
  {
    es == [] || ((es[0].Psh? || (es[0].Ack? && Before(s.ackNo, es[0].msg.ackNo)))
                 && Advancing(SlotStep(s, es[0]).slot, es[1..]))
  }

  lemma {:induction false} AcksStep(es: seq<SlotEvent>)
    requires es != []
    ensures AcksIn(es) == (if es[0].Ack? then 1 else 0) + AcksIn(es[1..])
    decreases |es|
  {
    if |es| == 1 {
      assert es[..0] == [] && es[1..] == [];
    } else {
      AcksStep(es[..|es| - 1]);
      assert es[..|es| - 1][1..] == es[1..][..|es| - 2];
    }
  }

  /** With no send in flight, fewer than ten newer ACKs in a row are withheld: the one that brings
      the count to ten is let through. */
  lemma {:induction false} WithheldInARow(s: Slot, es: seq<SlotEvent>)
    requires s.inSend.None? && 0 <= s.dropCnt && Advancing(s, es) && SlotRun(s, es).out == []
    ensures AcksIn(es) == 0 || s.dropCnt + AcksIn(es) < MAX_DROP
    decreases |es|
  {
    if es != [] {
      var first := SlotStep(s, es[0]);
      AcksStep(es);
      assert first.out == [];
      WithheldInARow(first.slot, es[1..]);
    }
  }
}
