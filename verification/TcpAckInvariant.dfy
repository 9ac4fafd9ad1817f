/** What every step of the TCP ACK coalescer keeps: the slot allocator's bookkeeping, and the
    conservation of the messages the filter takes over. */
module TcpAckInvariant {
  import opened Words
  import opened Counting
  import opened TcpAckSpec

  function Busy(slots: seq<Slot>): (b: seq<bool>)
    ensures |b| == |slots| && forall i :: 0 <= i < |slots| ==> b[i] == slots[i].busy
  {
    seq(|slots|, i requires 0 <= i < |slots| => slots[i].busy)
  }

  /** No two busy slots serve the same flow. */
  ghost predicate DistinctFlows(slots: seq<Slot>) {
    forall i, j :: 0 <= i < j < |slots| && slots[i].busy && slots[j].busy ==> slots[i].flow != slots[j].flow
  }

  ghost predicate Inv(m: Manage) {
    && |m.slots| == SLOTS
    && m.maxNum == Count(Busy(m.slots), true)
    && (0 <= m.freeIndex ==> m.freeIndex < SLOTS && !m.slots[m.freeIndex].busy)
    && DistinctFlows(m.slots)
    && (!m.enable ==> HeldIn(m.slots) == [])
  }

  // ---------------------------------------------------------------- held messages

  lemma {:induction false} HeldSame(a: seq<Slot>, b: seq<Slot>)
    requires |a| == |b| && forall i :: 0 <= i < |a| ==> a[i].msgbuf == b[i].msgbuf
    ensures HeldIn(a) == HeldIn(b)
  {
    if a != [] {
      HeldSame(a[..|a| - 1], b[..|b| - 1]);
    }
  }

  lemma {:induction false} HeldNone(a: seq<Slot>)
    requires forall i :: 0 <= i < |a| ==> a[i].msgbuf.None?
    ensures HeldIn(a) == []
  {
    if a != [] {
      HeldNone(a[..|a| - 1]);
    }
  }

  lemma HeldLast(slots: seq<Slot>, x: Msg)
    requires slots != []
    ensures Count(HeldIn(slots), x)
            == Count(HeldIn(slots[..|slots| - 1]), x) + Count(AsSeq(slots[|slots| - 1].msgbuf), x)
  {
    CountConcat(HeldIn(slots[..|slots| - 1]), AsSeq(slots[|slots| - 1].msgbuf), x);
  }

  lemma {:induction false} HeldUpdate(slots: seq<Slot>, i: nat, t: Slot, x: Msg)
    requires i < |slots|
    ensures Count(HeldIn(slots[i := t]), x) + Count(AsSeq(slots[i].msgbuf), x)
            == Count(HeldIn(slots), x) + Count(AsSeq(t.msgbuf), x)
    decreases |slots|
  {
    var n := |slots| - 1;
    HeldLast(slots, x);
    HeldLast(slots[i := t], x);
    if i == n {
      assert slots[i := t][..n] == slots[..n];
    } else {
      assert slots[i := t][..n] == slots[..n][i := t];
      HeldUpdate(slots[..n], i, t, x);
    }
  }

  /** Replacing a slot's message in a table that holds none leaves it holding none, as long as the
      new slot holds none. */
  lemma HeldEmptyUpdate(slots: seq<Slot>, i: nat, t: Slot)
    requires i < |slots| && (t.msgbuf == slots[i].msgbuf || t.msgbuf.None?)
    ensures HeldIn(slots) == [] ==> HeldIn(slots[i := t]) == []
  {
    if HeldIn(slots[i := t]) != [] {
      var x := HeldIn(slots[i := t])[0];
      CountZero(HeldIn(slots[i := t]), x);
      HeldUpdate(slots, i, t, x);
    }
  }

  // ---------------------------------------------------------------- table updates

  lemma BusyUpdate(slots: seq<Slot>, i: nat, t: Slot)
    requires i < |slots|
    ensures Count(Busy(slots[i := t]), true) + (if slots[i].busy then 1 else 0)
            == Count(Busy(slots), true) + (if t.busy then 1 else 0)
  {
    assert Busy(slots[i := t]) == Busy(slots)[i := t.busy];
    CountUpdate(Busy(slots), i, t.busy, true);
  }

  /** A slot update that keeps `busy` and the flow and takes over no message while disabled. */
  lemma KeepInv(m: Manage, i: nat, t: Slot)
    requires Inv(m) && i < |m.slots| && t.busy == m.slots[i].busy && t.flow == m.slots[i].flow
    requires m.enable || t.msgbuf == m.slots[i].msgbuf || t.msgbuf.None?
    ensures Inv(m.(slots := m.slots[i := t]))
  {
    BusyUpdate(m.slots, i, t);
    if !m.enable {
      HeldEmptyUpdate(m.slots, i, t);
    }
  }

  lemma ExpireOneInv(m: Manage, i: nat, now: nat, timeout: nat)
    requires Inv(m) && i < |m.slots|
    ensures var r := ExpireOne(m, i, now, timeout);
      && Inv(r) && r.enable == m.enable && HeldIn(r.slots) == HeldIn(m.slots)
      && r.slots == m.slots[i := if Overdue(m.slots[i], now, timeout) then m.slots[i].(busy := false) else m.slots[i]]
  {
    BusyUpdate(m.slots, i, m.slots[i].(busy := false));
    HeldSame(m.slots, m.slots[i := m.slots[i].(busy := false)]);
  }

  lemma {:induction false} ExpireInv(m: Manage, n: nat, now: nat, timeout: nat)
    requires Inv(m) && n <= |m.slots|
    ensures var r := ExpireDown(m, n, now, timeout);
      && Inv(r) && r.enable == m.enable && HeldIn(r.slots) == HeldIn(m.slots)
      && forall j :: 0 <= j < |m.slots| ==>
           r.slots[j] == if j < n && Overdue(m.slots[j], now, timeout) then m.slots[j].(busy := false) else m.slots[j]
    decreases n
  {
    hide HeldIn, Inv, Wrap64;
    if n > 0 {
      ExpireOneInv(m, n - 1, now, timeout);
      ExpireInv(ExpireOne(m, n - 1, now, timeout), n - 1, now, timeout);
    }
  }

  lemma UpdateInv(m: Manage, now: nat, timeout: nat)
    requires Inv(m)
    ensures var r := Update(m, now, timeout);
      && Inv(r) && r.enable == m.enable && HeldIn(r.slots) == HeldIn(m.slots)
      && forall j :: 0 <= j < |m.slots| ==> r.slots[j] == m.slots[j] || r.slots[j] == m.slots[j].(busy := false)
  {
    hide Count, ExpireDown, HeldIn, Wrap64;
    if TimeAfter(now, m.lastTime + timeout) {
      ExpireInv(m.(lastTime := now), |m.slots|, now, timeout);
    }
  }

  lemma {:induction false} AllBusy(slots: seq<Slot>)
    ensures Count(Busy(slots), true) <= |slots|
    ensures Count(Busy(slots), true) == |slots| <==> forall i :: 0 <= i < |slots| ==> slots[i].busy
  {
    if slots != [] {
      AllBusy(slots[..|slots| - 1]);
      assert Busy(slots)[..|slots| - 1] == Busy(slots[..|slots| - 1]);
    }
  }

  /** Allocation fails exactly when all 32 slots are busy, and otherwise yields an idle slot. */
  lemma AllocFindsIdle(m: Manage)
    requires Inv(m)
    ensures var (r, i) := Alloc(m);
      && r.slots == m.slots && r.enable == m.enable && -1 <= i < SLOTS
      && (i == -1 <==> forall j :: 0 <= j < SLOTS ==> m.slots[j].busy)
      && (i == -1 ==> r == m)
      && (i >= 0 ==> !m.slots[i].busy && r.maxNum == m.maxNum + 1 && r.freeIndex == -1)
  {
    AllBusy(m.slots);
  }

  // ---------------------------------------------------------------- the invariant

  lemma InitInv(now: nat)
    ensures Inv(Init(now)) && HeldIn(Init(now).slots) == []
  {
    var slots := Init(now).slots;
    HeldNone(slots);
    CountZero(Busy(slots), true);
  }

  /** An ACK of a known flow: what filter_send_tcp_ack does once the table is up to date. */
  lemma KnownFlowInv(m: Manage, i: nat, msg: Msg, winScale: u16, now: nat)
    requires Inv(m) && i < |m.slots|
    ensures m.enable ==> Inv(m.(slots := m.slots[i := Handle(Scale(m.slots[i], winScale), msg, now).slot]))
    ensures Inv(m.(slots := m.slots[i := Scale(m.slots[i], winScale)]))
  {
    if m.enable {
      KeepInv(m, i, Handle(Scale(m.slots[i], winScale), msg, now).slot);
    }
    KeepInv(m, i, Scale(m.slots[i], winScale));
  }

  /** An ACK of a new flow. */
  lemma NewFlowInv(m: Manage, msg: Msg, winScale: u16, now: nat)
    requires Inv(m) && Match(m.slots, msg.flow, 0) < 0
    ensures var (r, j) := Alloc(m);
      Inv(if 0 <= j < |r.slots| then r.(slots := r.slots[j := Fresh(r.slots[j], msg, winScale, now)]) else r)
  {
    AllocFindsIdle(m);
    var (r, j) := Alloc(m);
    if j >= 0 {
      var t := Fresh(r.slots[j], msg, winScale, now);
      BusyUpdate(r.slots, j, t);
      HeldSame(r.slots, r.slots[j := t]);
    }
  }

  lemma SendInv(m: Manage, msg: Msg, isAck: bool, winScale: u16, now: nat, timeout: nat)
    requires Inv(m)
    ensures Inv(StepSend(m, msg, isAck, winScale, now, timeout).state)
  {
    var m1 := Update(m, now, timeout);
    UpdateInv(m, now, timeout);
    if isAck {
      var i := Match(m1.slots, msg.flow, 0);
      if i >= 0 {
        KnownFlowInv(m1, i, msg, winScale, now);
      } else {
        NewFlowInv(m1, msg, winScale, now);
      }
    }
  }

  lemma MapInv(m: Manage, r: seq<Slot>)
    requires Inv(m) && |r| == |m.slots|
    requires forall i :: 0 <= i < |r| ==> r[i].busy == m.slots[i].busy && r[i].flow == m.slots[i].flow
    requires !m.enable ==> HeldIn(r) == []
    ensures Inv(m.(slots := r))
  {
    assert Busy(r) == Busy(m.slots);
  }

  lemma StepInv(m: Manage, e: Event, timeout: nat)
    requires Inv(m)
    ensures Inv(Step(m, e, timeout).state)
  {
    hide Busy, Count, HeldIn, Map, Match, StepSend;
    match e
    case Send(msg, isAck, winScale, now) => SendInv(m, msg, isAck, winScale, now, timeout);
    case Receive(flow, ackNo) =>
      var i := Match(m.slots, flow, 0);
      if i >= 0 {
        KeepInv(m, i, Push(m.slots[i], ackNo));
      }
    case Timeout(i) =>
      if i < |m.slots| {
        KeepInv(m, i, Fire(m.slots[i]));
      }
    case Sent(msg) =>
      HeldSame(m.slots, Map(m.slots, s => Report(s, msg)));
      MapInv(m, Map(m.slots, s => Report(s, msg)));
    case Deinit =>
      var r := Map(m.slots, Release);
      HeldNone(r);
      MapInv(m.(enable := true), r);
  }

  /** The allocator's bookkeeping and the emptiness of a stopped table hold after every run. */
  lemma {:induction false} RunInv(m: Manage, es: seq<Event>, timeout: nat)
    requires Inv(m)
    ensures Inv(Run(m, es, timeout).state)
    decreases |es|
  {
    if es != [] {
      StepInv(m, es[0], timeout);
      RunInv(Step(m, es[0], timeout).state, es[1..], timeout);
    }
  }

  // ---------------------------------------------------------------- conservation

  /** Every occurrence of a message that was held before or was taken over has been freed, has
      been transmitted by the timer, or is held. */
  ghost predicate Conserves(m: Manage, e: Effect, x: Msg) {
    Count(HeldIn(m.slots), x) + Count(e.consumed, x)
    == Count(e.dropped, x) + Count(e.sent, x) + Count(HeldIn(e.state.slots), x)
  }

  lemma HandleConserves(s: Slot, msg: Msg, now: nat, x: Msg)
    ensures var h := Handle(s, msg, now);
      Count(AsSeq(s.msgbuf), x) + Count(if h.ret then [msg] else [], x)
      == Count(h.dropped, x) + Count(AsSeq(h.slot.msgbuf), x)
  {
  }

  lemma SendConserves(m: Manage, msg: Msg, isAck: bool, winScale: u16, now: nat, timeout: nat, x: Msg)
    requires Inv(m)
    ensures Conserves(m, StepSend(m, msg, isAck, winScale, now, timeout), x)
  {
    hide DistinctFlows, FirstIdle, Handle, HeldIn, Match, Update;
    var m1 := Update(m, now, timeout);
    UpdateInv(m, now, timeout);
    if isAck {
      var i := Match(m1.slots, msg.flow, 0);
      if i >= 0 {
        var s := Scale(m1.slots[i], winScale);
        HandleConserves(s, msg, now, x);
        HeldUpdate(m1.slots, i, if m1.enable then Handle(s, msg, now).slot else s, x);
      } else {
        AllocFindsIdle(m1);
        var (m2, j) := Alloc(m1);
        if j >= 0 {
          HeldUpdate(m2.slots, j, Fresh(m2.slots[j], msg, winScale, now), x);
        }
      }
    }
  }

  lemma ReceiveConserves(m: Manage, flow: Flow, ackNo: u32, timeout: nat, x: Msg)
    ensures Conserves(m, Step(m, Receive(flow, ackNo), timeout), x)
  {
    var i := Match(m.slots, flow, 0);
    if i >= 0 {
      HeldUpdate(m.slots, i, Push(m.slots[i], ackNo), x);
    }
  }

  lemma TimeoutConserves(m: Manage, i: nat, timeout: nat, x: Msg)
    ensures Conserves(m, Step(m, Timeout(i), timeout), x)
  {
    hide Fire, HeldIn;
    if i < |m.slots| {
      FireConserves(m.slots[i], x);
      HeldUpdate(m.slots, i, Fire(m.slots[i]), x);
    }
  }

  lemma FireConserves(s: Slot, x: Msg)
    ensures var sent := if Fire(s).msgbuf == s.msgbuf then [] else AsSeq(s.msgbuf);
      Count(AsSeq(s.msgbuf), x) == Count(sent, x) + Count(AsSeq(Fire(s).msgbuf), x)
  {
  }

  lemma SentConserves(m: Manage, msg: Msg, timeout: nat, x: Msg)
    ensures Conserves(m, Step(m, Sent(msg), timeout), x)
  {
    HeldSame(m.slots, Map(m.slots, s => Report(s, msg)));
  }

  lemma StepConserves(m: Manage, e: Event, timeout: nat, x: Msg)
    requires Inv(m)
    ensures Conserves(m, Step(m, e, timeout), x)
  {
    match e
    case Send(msg, isAck, winScale, now) => SendConserves(m, msg, isAck, winScale, now, timeout, x);
    case Receive(flow, ackNo) => ReceiveConserves(m, flow, ackNo, timeout, x);
    case Timeout(i) => TimeoutConserves(m, i, timeout, x);
    case Sent(msg) => SentConserves(m, msg, timeout, x);
    case Deinit => HeldNone(Map(m.slots, Release));
  }

  lemma {:induction false} RunConserves(m: Manage, es: seq<Event>, timeout: nat, x: Msg)
    requires Inv(m)
    ensures Conserves(m, Run(m, es, timeout), x)
    decreases |es|
  {
    if es != [] {
      var first := Step(m, es[0], timeout);
      StepInv(m, es[0], timeout);
      StepConserves(m, es[0], timeout, x);
      RunConserves(first.state, es[1..], timeout, x);
      var rest := Run(first.state, es[1..], timeout);
      CountConcat(first.consumed, rest.consumed, x);
      CountConcat(first.dropped, rest.dropped, x);
      CountConcat(first.sent, rest.sent, x);
    }
  }

  /** From the initial table, over any run: a message the filter took over once is held in one
      slot, or was freed once, or was transmitted once by the timer, and never two of these; and
      once the coalescer is stopped it is not held. */
  lemma ConsumedOnceFate(now: nat, es: seq<Event>, timeout: nat, x: Msg)
    requires Count(Run(Init(now), es, timeout).consumed, x) == 1
    ensures var r := Run(Init(now), es, timeout);
      && Count(HeldIn(r.state.slots), x) + Count(r.dropped, x) + Count(r.sent, x) == 1
      && (!r.state.enable ==> HeldIn(r.state.slots) == [] && Count(r.dropped, x) + Count(r.sent, x) == 1)
  {
    InitInv(now);
    RunInv(Init(now), es, timeout);
    RunConserves(Init(now), es, timeout, x);
  }
}
