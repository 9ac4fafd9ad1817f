/** What the transmit pool does over whole runs: the hysteresis of both kinds of flow control, the
    order in which its lists hand buffers on, and the station a frame is charged to. */
module TxPoolLaws {
  import opened TxPool
  import opened Words

  /** The run passes through the state `r`, after `k` of its actions. */
  ghost predicate Passes(p: Pool, acts: seq<Action>, k: nat, r: Pool) {
    k <= |acts| && IsRun(p, acts[..k], r)
  }

  lemma PassesLater(p: Pool, acts: seq<Action>, k: nat, r: Pool)
    requires acts != [] && Enabled(p, acts[0]) && Passes(Step(p, acts[0]), acts[1..], k, r)
    ensures Passes(p, acts, k + 1, r)
  {
    assert acts[..k + 1][0] == acts[0] && acts[..k + 1][1..] == acts[1..][..k];
  }

  // ---------------------------------------------------------------- transmission as a whole

  /** Transmission is stopped by a caller's check that finds fewer than 50 free buffers, started
      again by a completion check that finds more than 150, and by nothing else. */
  lemma TbusyChangesIff(p: Pool, a: Action)
    requires Inv(p) && Enabled(p, a)
    ensures Step(p, a).tbusy != p.tbusy
            <==> if p.tbusy then a.CompleteCheck? && |p.free| > 150 else a.XmitCheck? && |p.free| < 50
  {
  }

  /** A run at whose end transmission is stopped, and was not at its start, passes through a state
      with fewer than 50 free buffers. */
  lemma {:induction false} StopNeedsLow(p: Pool, acts: seq<Action>, q: Pool) returns (k: nat, r: Pool)
    requires Inv(p) && IsRun(p, acts, q) && !p.tbusy && q.tbusy
    ensures Passes(p, acts, k, r) && |r.free| < 50
    decreases |acts|
  {
    TbusyChangesIff(p, acts[0]);
    if Step(p, acts[0]).tbusy {
      k, r := 0, p;
    } else {
      StepInv(p, acts[0]);
      k, r := StopNeedsLow(Step(p, acts[0]), acts[1..], q);
      PassesLater(p, acts, k, r);
      k := k + 1;
    }
  }

  /** A run at whose end transmission goes on, and was stopped at its start, passes through a state
      with more than 150 free buffers. */
  lemma {:induction false} StartNeedsHigh(p: Pool, acts: seq<Action>, q: Pool) returns (k: nat, r: Pool)
    requires Inv(p) && IsRun(p, acts, q) && p.tbusy && !q.tbusy
    ensures Passes(p, acts, k, r) && |r.free| > 150
    decreases |acts|
  {
    TbusyChangesIff(p, acts[0]);
    if !Step(p, acts[0]).tbusy {
      k, r := 0, p;
    } else {
      StepInv(p, acts[0]);
      k, r := StartNeedsHigh(Step(p, acts[0]), acts[1..], q);
      PassesLater(p, acts, k, r);
      k := k + 1;
    }
  }

  /** A shortage is noticed: while transmission goes on with fewer than 50 buffers free, a caller is
      on its way to the check. */
  ghost predicate StopPending(p: Pool) {
    !p.tbusy && |p.free| < 50 ==> p.xmitChecks > 0 || p.taken != [] || p.charged != []
  }

  lemma {:induction false} NoStopMissed(p: Pool, acts: seq<Action>, q: Pool)
    requires Inv(p) && StopPending(p) && IsRun(p, acts, q)
    ensures StopPending(q)
    decreases |acts|
  {
    if acts != [] {
      StepInv(p, acts[0]);
      StopPendingStep(p, acts[0]);
      NoStopMissed(Step(p, acts[0]), acts[1..], q);
    }
  }

  lemma StopPendingStep(p: Pool, a: Action)
    requires Inv(p) && StopPending(p) && Enabled(p, a)
    ensures StopPending(Step(p, a))
  {
  }

  // ---------------------------------------------------------------- one station

  /** A station of an access point is stopped by the frame that brings its outstanding frames to 64,
      started again by the one that leaves 15, and by nothing else; other stations never are. */
  lemma FlowChangesIff(p: Pool, a: Action, s: nat)
    requires Inv(p) && Enabled(p, a) && s < 32
    ensures |p.flowctrl| == |p.ap| == |Step(p, a).flowctrl| == 32
    ensures Step(p, a).flowctrl[s] != p.flowctrl[s]
            <==> p.ap[s] && Outstanding(p, s) != Outstanding(Step(p, a), s)
                 && Outstanding(Step(p, a), s) == if p.flowctrl[s] then 15 else 64
  {
    var q := Step(p, a);
    StepStations(p, a);
    assert q.pending[s] == Outstanding(q, s) && p.pending[s] == Outstanding(p, s);
    assert MarksOk(p.ap[s], p.flowctrl[s], p.pending[s]) && MarksOk(q.ap[s], q.flowctrl[s], q.pending[s]);
    FlowStep(p, a, s);
  }

  lemma FlowStep(p: Pool, a: Action, s: nat)
    requires Enabled(p, a) && s < |p.pending| == |p.flowctrl| == |p.ap|
    requires MarksOk(p.ap[s], p.flowctrl[s], p.pending[s])
    ensures var q := Step(p, a);
      && |q.pending| == |q.flowctrl| == |q.ap| == |p.ap| && q.ap == p.ap
      && (q.pending[s] == p.pending[s] ==> q.flowctrl[s] == p.flowctrl[s])
      && -1 <= q.pending[s] - p.pending[s] <= 1
      && (q.flowctrl[s] != p.flowctrl[s] ==> q.pending[s] == if p.flowctrl[s] then 15 else 64)
  {
    StepStation(p, a, s);
  }

  lemma {:induction false} StationStopNeeds64(p: Pool, acts: seq<Action>, q: Pool, s: nat) returns (k: nat, r: Pool)
    requires Inv(p) && IsRun(p, acts, q) && s < 32
    requires |p.flowctrl| == |q.flowctrl| == 32 && !p.flowctrl[s] && q.flowctrl[s]
    ensures Passes(p, acts, k, r) && Outstanding(r, s) == 64
    decreases |acts|
  {
    var p1 := Step(p, acts[0]);
    FlowChangesIff(p, acts[0], s);
    StepInv(p, acts[0]);
    if p1.flowctrl[s] {
      k, r := 1, p1;
      assert acts[..1] == [acts[0]] && [acts[0]][1..] == [];
    } else {
      k, r := StationStopNeeds64(p1, acts[1..], q, s);
      PassesLater(p, acts, k, r);
      k := k + 1;
    }
  }

  lemma {:induction false} StationStartNeeds15(p: Pool, acts: seq<Action>, q: Pool, s: nat) returns (k: nat, r: Pool)
    requires Inv(p) && IsRun(p, acts, q) && s < 32
    requires |p.flowctrl| == |q.flowctrl| == 32 && p.flowctrl[s] && !q.flowctrl[s]
    ensures Passes(p, acts, k, r) && Outstanding(r, s) == 15
    decreases |acts|
  {
    var p1 := Step(p, acts[0]);
    FlowChangesIff(p, acts[0], s);
    StepInv(p, acts[0]);
    if !p1.flowctrl[s] {
      k, r := 1, p1;
      assert acts[..1] == [acts[0]] && [acts[0]][1..] == [];
    } else {
      k, r := StationStartNeeds15(p1, acts[1..], q, s);
      PassesLater(p, acts, k, r);
      k := k + 1;
    }
  }

  // ---------------------------------------------------------------- first in, first out

  /** The buffers that a run puts on the post list, and those that the bus thread gets, in order. */
  function Posted(p: Pool, acts: seq<Action>): seq<Buf>
    decreases |acts|
  {
    if acts == [] || !Enabled(p, acts[0]) then []
    else (match acts[0] case XmitPost(k) => [p.charged[k]] case _ => []) + Posted(Step(p, acts[0]), acts[1..])
  }

  function GotByBus(p: Pool, acts: seq<Action>): seq<Buf>
    decreases |acts|
  {
    if acts == [] || !Enabled(p, acts[0]) then []
    else (if acts[0].BusTake? then Step(p, acts[0]).bus else []) + GotByBus(Step(p, acts[0]), acts[1..])
  }

  /** Frames reach the bus in the order in which they were posted. */
  lemma {:induction false} PostedInOrder(p: Pool, acts: seq<Action>, q: Pool)
    requires IsRun(p, acts, q)
    ensures p.post + Posted(p, acts) == GotByBus(p, acts) + q.post
    decreases |acts|
  {
    if acts != [] {
      var p1 := Step(p, acts[0]);
      PostedInOrder(p1, acts[1..], q);
      PostStep(p, acts[0]);
      Chain4(p.post, match acts[0] case XmitPost(k) => [p.charged[k]] case _ => [], Posted(p1, acts[1..]),
             if acts[0].BusTake? then p1.bus else [], p1.post, GotByBus(p1, acts[1..]), q.post);
    }
  }

  lemma PostStep(p: Pool, a: Action)
    requires Enabled(p, a)
    ensures p.post + (match a case XmitPost(k) => [p.charged[k]] case _ => [])
            == (if a.BusTake? then Step(p, a).bus else []) + Step(p, a).post
  {
    if a.BusTake? {
      assert [p.post[0]] + p.post[1..] == p.post;
    }
  }

  /** Two stretches of a run, one after the other. */
  lemma Chain4<T>(before: seq<T>, put1: seq<T>, put2: seq<T>, got1: seq<T>, between: seq<T>, got2: seq<T>,
                  after: seq<T>)
    requires before + put1 == got1 + between && between + put2 == got2 + after
    ensures before + (put1 + put2) == (got1 + got2) + after
  {
    assert before + (put1 + put2) == (before + put1) + put2;
    assert (got1 + between) + put2 == got1 + (between + put2);
    assert got1 + (got2 + after) == (got1 + got2) + after;
  }

  // ---------------------------------------------------------------- the station of a frame

  /** A buffer that is not free keeps the station of its frame. */
  lemma {:induction false} StationKept(p: Pool, acts: seq<Action>, q: Pool, b: Buf)
    requires IsRun(p, acts, q) && b < |p.dest|
    requires forall k: nat, r :: Passes(p, acts, k, r) && k < |acts| ==> b !in r.free
    ensures |q.dest| == |p.dest| && q.dest[b] == p.dest[b]
    decreases |acts|
  {
    if acts != [] {
      assert IsRun(p, acts[..0], p);
      assert Passes(p, acts, 0, p);
      forall k: nat, r | Passes(Step(p, acts[0]), acts[1..], k, r) && k < |acts[1..]|
        ensures b !in r.free
      {
        PassesLater(p, acts, k, r);
      }
      StationKept(Step(p, acts[0]), acts[1..], q, b);
    }
  }

  /** A frame for a station is counted against that station and no other when it is charged, and
      taken off it when it is completed or its submission fails, whatever happened since its buffer
      was taken. */
  lemma CountedForItsStation(p: Pool, sta: Option<nat>, acts: seq<Action>, q: Pool, s: nat)
    requires Inv(p) && Enabled(p, XmitTake(sta)) && IsRun(Step(p, XmitTake(sta)), acts, q) && s < 32
    requires forall k: nat, r :: Passes(Step(p, XmitTake(sta)), acts, k, r) && k < |acts| ==> p.free[0] !in r.free
    ensures var b, own := p.free[0], if sta == Some(s) then 1 else 0;
      && |q.pending| == 32
      && (forall k | 0 <= k < |q.taken| && q.taken[k] == b ::
            |Step(q, XmitCharge(k)).pending| == 32 && Step(q, XmitCharge(k)).pending[s] == q.pending[s] + own)
      && (forall k | 0 <= k < |q.inFlight| && q.inFlight[k] == b ::
            |Step(q, Complete(k)).pending| == 32 && Step(q, Complete(k)).pending[s] == q.pending[s] - own)
      && (q.bus == [b] && q.failed == [] ==>
            && |Step(q, BusSubmit(false)).pending| == 32
            && Step(q, BusSubmit(false)).pending[s] == q.pending[s] - own)
  {
    var b, p1 := p.free[0], Step(p, XmitTake(sta));
    StepInv(p, XmitTake(sta));
    RunKeepsInv(p1, acts, q);
    StationKept(p1, acts, q, b);
    CountedFor(q, b, sta, s);
  }

  lemma CountedFor(q: Pool, b: Buf, sta: Option<nat>, s: nat)
    requires |q.pending| == |q.flowctrl| == |q.ap| == 32 && s < 32
    requires b < |q.dest| && q.dest[b] == sta
    ensures var own := if sta == Some(s) then 1 else 0;
      && (forall k | 0 <= k < |q.taken| && q.taken[k] == b ::
            |Step(q, XmitCharge(k)).pending| == 32 && Step(q, XmitCharge(k)).pending[s] == q.pending[s] + own)
      && (forall k | 0 <= k < |q.inFlight| && q.inFlight[k] == b ::
            |Step(q, Complete(k)).pending| == 32 && Step(q, Complete(k)).pending[s] == q.pending[s] - own)
      && (q.bus == [b] && q.failed == [] ==>
            && |Step(q, BusSubmit(false)).pending| == 32
            && Step(q, BusSubmit(false)).pending[s] == q.pending[s] - own)
  {
  }
}
