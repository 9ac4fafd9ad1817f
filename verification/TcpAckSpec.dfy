/** What the TCP ACK coalescer does to its table of flow slots, one lock-protected step at a time. */
module TcpAckSpec {
  import opened Words

  const SLOTS := 32
  const MAX_DROP := 10

  datatype Flow = Flow(saddr: u32, daddr: u32, source: u16, dest: u16)

  /** A message buffer, with the flow and the acknowledgement number of the ACK it carries. */
  datatype Msg = Msg(id: nat, flow: Flow, ackNo: u32)

  datatype Slot = Slot(
    busy: bool,
    dropCnt: int,
    pshFlag: bool,
    pshSeq: u32,
    winScale: u16,
    lastTime: nat,
    msgbuf: Option<Msg>,   // withheld
    inSend: Option<Msg>,   // handed on, and not yet reported as sent
    flow: Flow,
    ackNo: u32)              // the newest acknowledgement number of the flow

  datatype Manage = Manage(enable: bool, maxNum: int, freeIndex: int, lastTime: nat, slots: seq<Slot>)

  /** One step of the environment.  `Send` is filter_send_tcp_ack with the outcome of the header
      checks (`isAck`: a droppable or other pure ACK; `winScale`: the window scale option, or 0);
      `Sent` is move_tcpack_msg. */
  datatype Event =
    | Send(msg: Msg, isAck: bool, winScale: u16, now: nat)
    | Receive(flow: Flow, ackNo: u32)
    | Timeout(slot: nat)
    | Sent(msg: Msg)
    | Deinit

  /** The messages a step takes over (the filter returns 1), lets through (it returns 0), frees,
      and transmits from the timer. */
  datatype Effect = Effect(state: Manage, consumed: seq<Msg>, passed: seq<Msg>, dropped: seq<Msg>, sent: seq<Msg>)

  // ---------------------------------------------------------------- modular comparisons

  /** U32_BEFORE(a, b): the signed 32-bit difference a - b is not positive. */
  predicate Before(a: u32, b: u32) {
    var d := Wrap32(a - b);
    d == 0 || 0x8000_0000 <= d
  }

  /** time_after(a, b) on 64-bit jiffies. */
  predicate TimeAfter(a: nat, b: nat) {
    0x8000_0000_0000_0000 <= Wrap64(b - a)
  }

  // ---------------------------------------------------------------- one slot

  datatype Handled = Handled(slot: Slot, ret: bool, dropped: seq<Msg>)

  function AsSeq(m: Option<Msg>): seq<Msg> {
    if m.Some? then [m.value] else []
  }

  /** tcp_ack_handle_new */
  function Handle(s: Slot, m: Msg, now: nat): Handled {
    if !Before(s.ackNo, m.ackNo) then Handled(s.(lastTime := now), true, [m])
    else
      var quick := s.pshFlag && !Before(m.ackNo, s.pshSeq);
      var cnt := if quick then s.dropCnt else s.dropCnt + 1;
      var t := s.(lastTime := now, msgbuf := None, ackNo := m.ackNo, dropCnt := cnt,
                  pshFlag := s.pshFlag && !quick);
      if quick || (s.inSend.None? && cnt >= MAX_DROP) then
        Handled(t.(dropCnt := 0, inSend := Some(m)), false, AsSeq(s.msgbuf))
      else
        Handled(t.(msgbuf := Some(m)), true, AsSeq(s.msgbuf))
  }

  /** The locked part of tcp_ack_timeout. */
  function Fire(s: Slot): Slot {
    if s.busy && s.msgbuf.Some? && s.inSend.None? then s.(msgbuf := None, dropCnt := 0, inSend := s.msgbuf)
    else s
  }

  function Report(s: Slot, m: Msg): Slot {
    if s.busy && s.inSend == Some(m) then s.(inSend := None) else s
  }

  function Release(s: Slot): Slot {
    s.(msgbuf := None)
  }

  function Push(s: Slot, ackNo: u32): Slot {
    s.(pshFlag := true, pshSeq := ackNo)
  }

  // ---------------------------------------------------------------- the table

  /** tcp_ack_match: the first busy slot of the flow, or -1. */
  function Match(slots: seq<Slot>, flow: Flow, i: nat): (r: int)
    requires i <= |slots|
    ensures -1 <= r < |slots|
    ensures 0 <= r ==> i <= r && slots[r].busy && slots[r].flow == flow
    ensures forall j :: i <= j < (if r < 0 then |slots| else r) ==> !(slots[j].busy && slots[j].flow == flow)
    decreases |slots| - i
  {
    if i == |slots| then -1
    else if slots[i].busy && slots[i].flow == flow then i
    else Match(slots, flow, i + 1)
  }

  /** The scan of tcp_ack_alloc_index: the first slot that is not busy, or -1. */
  function FirstIdle(slots: seq<Slot>, i: nat): (r: int)
    requires i <= |slots|
    ensures -1 <= r < |slots|
    ensures 0 <= r ==> !slots[r].busy
    ensures r < 0 ==> forall j :: i <= j < |slots| ==> slots[j].busy
    decreases |slots| - i
  {
    if i == |slots| then -1 else if !slots[i].busy then i else FirstIdle(slots, i + 1)
  }

  /** tcp_ack_alloc_index: the table with the slot accounted for, and the slot or -1. */
  function Alloc(m: Manage): (Manage, int) {
    if m.maxNum == SLOTS then (m, -1)
    else if m.freeIndex >= 0 then (m.(freeIndex := -1, maxNum := m.maxNum + 1), m.freeIndex)
    else
      var i := FirstIdle(m.slots, 0);
      if i < 0 then (m, -1) else (m.(freeIndex := -1, maxNum := m.maxNum + 1), i)
  }

  predicate Overdue(s: Slot, now: nat, timeout: nat) {
    s.busy && TimeAfter(now, s.lastTime + timeout)
  }

  function ExpireOne(m: Manage, i: nat, now: nat, timeout: nat): Manage
    requires i < |m.slots|
  {
    if Overdue(m.slots[i], now, timeout) then
      m.(freeIndex := i, maxNum := m.maxNum - 1, slots := m.slots[i := m.slots[i].(busy := false)])
    else m
  }

  /** The downward scan of tcp_ack_update over the first `n` slots. */
  function ExpireDown(m: Manage, n: nat, now: nat, timeout: nat): (r: Manage)
    requires n <= |m.slots|
    ensures |r.slots| == |m.slots|
    decreases n
  {
    if n == 0 then m else ExpireDown(ExpireOne(m, n - 1, now, timeout), n - 1, now, timeout)
  }

  /** tcp_ack_update */
  function Update(m: Manage, now: nat, timeout: nat): (r: Manage)
    ensures |r.slots| == |m.slots|
  {
    if TimeAfter(now, m.lastTime + timeout) then ExpireDown(m.(lastTime := now), |m.slots|, now, timeout)
    else m
  }

  /** A slot as filter_send_tcp_ack sets it up; a message still held or in flight is left there. */
  function Fresh(s: Slot, msg: Msg, winScale: u16, now: nat): Slot {
    s.(busy := true, pshFlag := false, lastTime := now, dropCnt := MAX_DROP,
       winScale := if winScale != 0 then winScale else 1, flow := msg.flow, ackNo := msg.ackNo)
  }

  function Scale(s: Slot, winScale: u16): Slot {
    if winScale != 0 then s.(winScale := winScale) else s
  }

  function StepSend(m: Manage, msg: Msg, isAck: bool, winScale: u16, now: nat, timeout: nat): Effect {
    var m1 := Update(m, now, timeout);
    if !isAck then Effect(m1, [], [msg], [], [])
    else
      var i := Match(m1.slots, msg.flow, 0);
      if i >= 0 then
        var s := Scale(m1.slots[i], winScale);
        if m1.enable then
          var h := Handle(s, msg, now);
          Effect(m1.(slots := m1.slots[i := h.slot]),
                 if h.ret then [msg] else [], if h.ret then [] else [msg], h.dropped, [])
        else Effect(m1.(slots := m1.slots[i := s]), [], [msg], [], [])
      else
        var (m2, j) := Alloc(m1);
        if 0 <= j < |m2.slots| then
          Effect(m2.(slots := m2.slots[j := Fresh(m2.slots[j], msg, winScale, now)]), [], [msg], [], [])
        else Effect(m2, [], [msg], [], [])
  }

  function Map(slots: seq<Slot>, f: Slot -> Slot): (r: seq<Slot>)
    ensures |r| == |slots| && forall i :: 0 <= i < |slots| ==> r[i] == f(slots[i])
  {
    seq(|slots|, i requires 0 <= i < |slots| => f(slots[i]))
  }

  /** The withheld messages, in slot order. */
  function HeldIn(slots: seq<Slot>): seq<Msg> {
    if slots == [] then [] else HeldIn(slots[..|slots| - 1]) + AsSeq(slots[|slots| - 1].msgbuf)
  }

  function Step(m: Manage, e: Event, timeout: nat): (r: Effect)
    ensures |r.state.slots| == |m.slots|
  {
    match e
    case Send(msg, isAck, winScale, now) => StepSend(m, msg, isAck, winScale, now, timeout)
    case Receive(flow, ackNo) =>
      var i := Match(m.slots, flow, 0);
      if m.enable && i >= 0 then Effect(m.(slots := m.slots[i := Push(m.slots[i], ackNo)]), [], [], [], [])
      else Effect(m, [], [], [], [])
    case Timeout(i) =>
      if i < |m.slots| then
        var t := Fire(m.slots[i]);
        Effect(m.(slots := m.slots[i := t]), [], [], [],
               if t.msgbuf == m.slots[i].msgbuf then [] else AsSeq(m.slots[i].msgbuf))
      else Effect(m, [], [], [], [])
    case Sent(msg) =>
      if m.enable then Effect(m.(slots := Map(m.slots, s => Report(s, msg))), [], [], [], [])
      else Effect(m, [], [], [], [])
    case Deinit =>
      Effect(m.(enable := false, slots := Map(m.slots, Release)), [], [], HeldIn(m.slots), [])
  }

  /** tcp_ack_init */
  function Init(now: nat): Manage {
    Manage(true, 0, 0, now,
           seq(32, _ => Slot(false, 0, false, 0, 0, now, None, None, Flow(0, 0, 0, 0), 0)))
  }

  function Run(m: Manage, es: seq<Event>, timeout: nat): (r: Effect)
    ensures |r.state.slots| == |m.slots|
    decreases |es|
  {
    if es == [] then Effect(m, [], [], [], [])
    else
      var first := Step(m, es[0], timeout);
      var rest := Run(first.state, es[1..], timeout);
      Effect(rest.state, first.consumed + rest.consumed, first.passed + rest.passed,
             first.dropped + rest.dropped, first.sent + rest.sent)
  }
}
