/** The TCP ACK coalescer as built: a table of 32 slots scanned and updated in place. */
module TcpAck {
  import opened Words
  import opened TcpAckSpec
  import opened TcpAckInvariant

  class TcpAckManage {
    var enable: bool
    var maxNum: int
    var freeIndex: int
    var lastTime: nat
    const timeout: nat
    const slots: array<Slot>

    ghost function State(): Manage
      reads this, slots
    {
      Manage(enable, maxNum, freeIndex, lastTime, slots[..])
    }

    ghost predicate Valid()
      reads this, slots
    {
      slots.Length == 32 && Inv(State())
    }

    /** tcp_ack_init */
    constructor (now: nat, timeout: nat)
      ensures Valid() && fresh(slots) && State() == Init(now) && this.timeout == timeout
    {
      enable, maxNum, freeIndex, lastTime := true, 0, 0, now;
      this.timeout := timeout;
      slots := new Slot[32](_ => Slot(false, 0, false, 0, 0, now, None, None, Flow(0, 0, 0, 0), 0));
      new;
      assert slots[..] == Init(now).slots;
      InitInv(now);
    }

    /** tcp_ack_match */
    method TcpAckMatch(flow: Flow) returns (index: int)
      ensures index == Match(slots[..], flow, 0)
    {
      index := -1;
      var i := 0;
      while index < 0 && i < slots.Length
        invariant 0 <= i <= slots.Length
        invariant index < 0 ==> index == -1 && Match(slots[..], flow, 0) == Match(slots[..], flow, i)
        invariant 0 <= index ==> index == Match(slots[..], flow, 0)
      {
        if slots[i].busy && slots[i].flow == flow {
          index := i;
        }
        i := i + 1;
      }
    }

    /** tcp_ack_update */
    method TcpAckUpdate(now: nat)
      modifies this`lastTime, this`freeIndex, this`maxNum, slots
      ensures State() == Update(old(State()), now, timeout)
    {
      if TimeAfter(now, lastTime + timeout) {
        lastTime := now;
        ghost var goal := ExpireDown(State(), slots.Length, now, timeout);
        var i := slots.Length - 1;
        while i >= 0
          invariant -1 <= i < slots.Length
          invariant ExpireDown(State(), i + 1, now, timeout) == goal
          invariant enable == old(enable) && lastTime == now
        {
          ghost var before := State();
          if slots[i].busy && TimeAfter(now, slots[i].lastTime + timeout) {
            freeIndex := i;
            maxNum := maxNum - 1;
            slots[i] := slots[i].(busy := false);
          }
          assert State() == ExpireOne(before, i, now, timeout);
          i := i - 1;
        }
      }
    }

    /** tcp_ack_alloc_index */
    method TcpAckAllocIndex() returns (index: int)
      requires slots.Length == 32
      modifies this`freeIndex, this`maxNum
      ensures State() == Alloc(old(State())).0 && index == Alloc(old(State())).1
    {
      if maxNum == 32 {
        return -1;
      }
      if freeIndex >= 0 {
        index := freeIndex;
        freeIndex := -1;
        maxNum := maxNum + 1;
        return;
      }
      index := -1;
      var i := 0;
      while index < 0 && i < slots.Length
        invariant 0 <= i <= slots.Length
        invariant index < 0 ==>
          index == -1 && FirstIdle(slots[..], 0) == FirstIdle(slots[..], i)
          && freeIndex == old(freeIndex) && maxNum == old(maxNum)
        invariant 0 <= index ==>
          index == FirstIdle(slots[..], 0) && freeIndex == -1 && maxNum == old(maxNum) + 1
      {
        if !slots[i].busy {
          freeIndex := -1;
          maxNum := maxNum + 1;
          index := i;
        }
        i := i + 1;
      }
    }

    /** tcp_ack_handle_new: `ret` is true when the message was withheld or freed. */
    method TcpAckHandleNew(i: nat, msg: Msg, now: nat) returns (ret: bool, dropped: seq<Msg>)
      requires i < slots.Length
      modifies slots
      ensures var h := Handle(old(slots[i]), msg, now);
        slots[..] == old(slots[..])[i := h.slot] && ret == h.ret && dropped == h.dropped
      ensures var s := old(slots[i]);
        !ret <==> && Before(s.ackNo, msg.ackNo)
                  && ((s.pshFlag && !Before(msg.ackNo, s.pshSeq)) || (s.inSend.None? && s.dropCnt + 1 >= 10))
      ensures !ret ==> slots[i].inSend == Some(msg) && slots[i].msgbuf.None? && slots[i].dropCnt == 0
    {
      var quick := false;
      ret, dropped := false, [];
      slots[i] := slots[i].(lastTime := now);
      if Before(slots[i].ackNo, msg.ackNo) {
        if slots[i].msgbuf.Some? {
          dropped := [slots[i].msgbuf.value];
          slots[i] := slots[i].(msgbuf := None);
        }
        if slots[i].pshFlag && !Before(msg.ackNo, slots[i].pshSeq) {
          slots[i] := slots[i].(pshFlag := false);
          quick := true;
        } else {
          slots[i] := slots[i].(dropCnt := slots[i].dropCnt + 1);
        }
        slots[i] := slots[i].(ackNo := msg.ackNo);
        if quick || (slots[i].inSend.None? && slots[i].dropCnt >= MAX_DROP) {
          slots[i] := slots[i].(dropCnt := 0, inSend := Some(msg));
        } else {
          ret := true;
          slots[i] := slots[i].(msgbuf := Some(msg));
        }
      } else {
        dropped := [msg];
        ret := true;
      }
    }

    /** The part of filter_send_tcp_ack for a flow that has a slot. */
    method KnownFlow(i: nat, msg: Msg, winScale: u16, now: nat) returns (ret: bool, dropped: seq<Msg>)
      requires i < slots.Length
      modifies slots
      ensures var s := Scale(old(slots[i]), winScale);
        var h := Handle(s, msg, now);
        && slots[..] == old(slots[..])[i := if enable then h.slot else s]
        && ret == (enable && h.ret) && dropped == (if enable then h.dropped else [])
    {
      ret, dropped := false, [];
      if winScale != 0 && slots[i].winScale != winScale {
        slots[i] := slots[i].(winScale := winScale);
      }
      assert slots[..] == old(slots[..])[i := Scale(old(slots[i]), winScale)];
      if enable {
        ret, dropped := TcpAckHandleNew(i, msg, now);
      }
    }

    /** The part of filter_send_tcp_ack for a flow that has none: a message that the slot still
        holds is left there. */
    method NewFlow(msg: Msg, winScale: u16, now: nat)
      requires Valid()
      modifies this`freeIndex, this`maxNum, slots
      ensures var (r, j) := Alloc(old(State()));
        State() == if 0 <= j < |r.slots| then r.(slots := r.slots[j := Fresh(r.slots[j], msg, winScale, now)]) else r
    {
      AllocFindsIdle(State());
      var index := TcpAckAllocIndex();
      if index >= 0 {
        slots[index] := Fresh(slots[index], msg, winScale, now);
      }
    }

    /** filter_send_tcp_ack, after its header checks: true when the message is taken over. */
    method FilterSendTcpAck(msg: Msg, isAck: bool, winScale: u16, now: nat) returns (ret: bool, dropped: seq<Msg>)
      requires Valid()
      modifies this`lastTime, this`freeIndex, this`maxNum, slots
      ensures Valid()
      ensures var e := Step(old(State()), Send(msg, isAck, winScale, now), timeout);
        && State() == e.state && dropped == e.dropped
        && e.consumed == (if ret then [msg] else []) && e.passed == (if ret then [] else [msg])
    {
      hide Handle, HeldIn, Inv, Map, Match, Scale, Update;
      ghost var m := State();
      ghost var m1 := Update(m, now, timeout);
      SendInv(m, msg, isAck, winScale, now, timeout);
      UpdateInv(m, now, timeout);
      TcpAckUpdate(now);
      ret, dropped := false, [];
      if isAck {
        var index := TcpAckMatch(msg.flow);
        if index >= 0 {
          ret, dropped := KnownFlow(index, msg, winScale, now);
        } else {
          NewFlow(msg, winScale, now);
        }
      }
      assert State() == StepSend(m, msg, isAck, winScale, now, timeout).state;
    }

    /** filter_rx_tcp_ack, for a received segment with the push flag. */
    method FilterRxTcpAck(flow: Flow, ackNo: u32)
      requires Valid()
      modifies slots
      ensures Valid() && State() == Step(old(State()), Receive(flow, ackNo), timeout).state
    {
      StepInv(State(), Receive(flow, ackNo), timeout);
      if !enable {
        return;
      }
      var index := TcpAckMatch(flow);
      if index >= 0 {
        slots[index] := slots[index].(pshFlag := true, pshSeq := ackNo);
      }
    }

    /** tcp_ack_timeout: the message it transmits, if any. */
    method TcpAckTimeout(i: nat) returns (sent: Option<Msg>)
      requires Valid() && i < 32
      modifies slots
      ensures Valid()
      ensures var e := Step(old(State()), Timeout(i), timeout);
        State() == e.state && AsSeq(sent) == e.sent
    {
      StepInv(State(), Timeout(i), timeout);
      sent := None;
      var s := slots[i];
      if s.busy && s.msgbuf.Some? && s.inSend.None? {
        slots[i] := s.(msgbuf := None, dropCnt := 0, inSend := s.msgbuf);
        sent := s.msgbuf;
      }
    }

    /** move_tcpack_msg */
    method MoveTcpAckMsg(msg: Msg)
      requires Valid()
      modifies slots
      ensures Valid() && State() == Step(old(State()), Sent(msg), timeout).state
    {
      StepInv(State(), Sent(msg), timeout);
      if !enable {
        return;
      }
      for i := 0 to slots.Length
        invariant forall j :: 0 <= j < i ==> slots[j] == Report(old(slots[j]), msg)
        invariant forall j :: i <= j < slots.Length ==> slots[j] == old(slots[j])
      {
        if slots[i].busy && slots[i].inSend == Some(msg) {
          slots[i] := slots[i].(inSend := None);
        }
      }
      assert slots[..] == Map(old(slots[..]), s => Report(s, msg));
    }

    /** tcp_ack_deinit: the messages it frees. */
    method TcpAckDeinit() returns (dropped: seq<Msg>)
      requires Valid()
      modifies this`enable, slots
      ensures Valid()
      ensures var e := Step(old(State()), Deinit, timeout);
        State() == e.state && dropped == e.dropped
      ensures HeldIn(slots[..]) == []
    {
      StepInv(State(), Deinit, timeout);
      enable := false;
      dropped := ReleaseAll();
      assert State() == Step(old(State()), Deinit, timeout).state;
    }

    method ReleaseAll() returns (dropped: seq<Msg>)
      modifies slots
      ensures slots[..] == Map(old(slots[..]), Release) && dropped == HeldIn(old(slots[..]))
    {
      dropped := [];
      for i := 0 to slots.Length
        invariant dropped == HeldIn(old(slots[..])[..i])
        invariant forall j :: 0 <= j < i ==> slots[j] == Release(old(slots[j]))
        invariant forall j :: i <= j < slots.Length ==> slots[j] == old(slots[j])
      {
        assert old(slots[..])[..i + 1][..i] == old(slots[..])[..i];
        if slots[i].msgbuf.Some? {
          dropped := dropped + [slots[i].msgbuf.value];
        }
        slots[i] := slots[i].(msgbuf := None);
      }
      assert old(slots[..])[..slots.Length] == old(slots[..]);
    }
  }
}
