/** The USB transmit buffer pool: 200 buffers passed between the callers of the transmit hook, the
    bus thread and the completion handlers, one lock-protected section at a time, with global and
    per-station flow control. */
module TxPool {
  import opened Words
  import opened Counting
  import opened Sequences

  const URBS := 200
  const LOW_WATER := 50
  const HIGH_WATER := 150
  const STATIONS := 32
  const STA_HIGH := 64
  const STA_LOW := 16

  type Buf = nat

  /** `dest[b]` is the station whose pending count the frame in buffer `b` goes to; None for a
      management frame or an index outside the station table. */
  datatype Pool = Pool(
    free: seq<Buf>, freeCount: int,
    post: seq<Buf>, postCount: int,
    taken: seq<Buf>,      // in a transmit caller's hand, not yet charged to its station
    charged: seq<Buf>,    // in a transmit caller's hand, charged
    bus: seq<Buf>,        // in the bus thread's hand
    failed: seq<Buf>,     // in the bus thread's hand after a failed submission
    inFlight: seq<Buf>,   // submitted
    done: seq<Buf>,       // in a completion handler's hand
    xmitChecks: nat,      // transmit callers about to check the low water mark
    doneChecks: nat,      // completion handlers about to check the high water mark
    dest: seq<Option<nat>>,
    ap: seq<bool>,        // the station belongs to an access point interface
    pending: seq<int>,
    flowctrl: seq<bool>,
    tbusy: bool)

  datatype Action =
    | XmitTake(sta: Option<nat>)  // dequeue from the free list
    | XmitEmpty                   // find the free list empty
    | XmitCharge(k: nat)          // usb_tx_flow_ctrl
    | XmitPost(k: nat)            // queue on the post list
    | XmitCheck                   // the low water check
    | BusTake                     // dequeue from the post list
    | BusSubmit(ok: bool)         // usb_submit_urb; on failure, usb_txc_sta_flowctrl
    | BusRequeue                  // put a failed buffer back on the free list
    | Complete(k: nat)            // usb_txc_sta_flowctrl in the completion handler
    | CompleteQueue(k: nat)       // queue on the free list
    | CompleteCheck               // the high water check

  // ---------------------------------------------------------------- flow control of a station

  /** usb_tx_flow_ctrl: one more pending frame; a station at the high mark is stopped. */
  function Charge(p: Pool, sta: Option<nat>): Pool {
    if sta.None? || sta.value >= |p.pending| || sta.value >= |p.flowctrl| || sta.value >= |p.ap| then p
    else
      var s := sta.value;
      var n := p.pending[s] + 1;
      var stop := p.ap[s] && ((n >= STA_HIGH && !p.flowctrl[s]) || p.flowctrl[s]);
      p.(pending := p.pending[s := n], flowctrl := if stop then p.flowctrl[s := true] else p.flowctrl)
  }

  /** usb_txc_sta_flowctrl: one frame less; a stopped station below the low mark is woken. */
  function Discharge(p: Pool, sta: Option<nat>): Pool {
    if sta.None? || sta.value >= |p.pending| || sta.value >= |p.flowctrl| || sta.value >= |p.ap| then p
    else
      var s := sta.value;
      var n := p.pending[s] - 1;
      var wake := p.ap[s] && n < STA_LOW && p.flowctrl[s];
      p.(pending := p.pending[s := n], flowctrl := if wake then p.flowctrl[s := false] else p.flowctrl)
  }

  function DestOf(p: Pool, b: Buf): Option<nat> {
    if b < |p.dest| then p.dest[b] else None
  }

  // ---------------------------------------------------------------- steps

  predicate Enabled(p: Pool, a: Action) {
    match a
    case XmitTake(sta) => p.free != [] && p.free[0] < |p.dest| && (sta.Some? ==> sta.value < STATIONS)
    case XmitEmpty => p.free == []
    case XmitCharge(k) => k < |p.taken|
    case XmitPost(k) => k < |p.charged|
    case XmitCheck => p.xmitChecks > 0
    case BusTake => p.post != [] && p.bus == [] && p.failed == []
    case BusSubmit(_) => |p.bus| == 1 && p.failed == []
    case BusRequeue => |p.failed| == 1
    case Complete(k) => k < |p.inFlight|
    case CompleteQueue(k) => k < |p.done|
    case CompleteCheck => p.doneChecks > 0
  }

  function Step(p: Pool, a: Action): Pool
    requires Enabled(p, a)
  {
    match a
    case XmitTake(sta) =>
      var b := p.free[0];
      p.(free := p.free[1..], freeCount := p.freeCount - 1, taken := p.taken + [b], dest := p.dest[b := sta])
    case XmitEmpty => p.(xmitChecks := p.xmitChecks + 1)
    case XmitCharge(k) =>
      var b := p.taken[k];
      Charge(p.(taken := Without(p.taken, k), charged := p.charged + [b]), DestOf(p, b))
    case XmitPost(k) =>
      var b := p.charged[k];
      p.(charged := Without(p.charged, k), post := p.post + [b], postCount := p.postCount + 1,
         xmitChecks := p.xmitChecks + 1)
    case XmitCheck =>
      p.(xmitChecks := p.xmitChecks - 1, tbusy := p.tbusy || p.freeCount < LOW_WATER)
    case BusTake => p.(post := p.post[1..], postCount := p.postCount - 1, bus := [p.post[0]])
    case BusSubmit(ok) =>
      var b := p.bus[0];
      if ok then p.(bus := [], inFlight := p.inFlight + [b])
      else Discharge(p.(bus := [], failed := [b]), DestOf(p, b))
    case BusRequeue =>
      p.(failed := [], free := p.free + [p.failed[0]], freeCount := p.freeCount + 1)
    case Complete(k) =>
      var b := p.inFlight[k];
      Discharge(p.(inFlight := Without(p.inFlight, k), done := p.done + [b]), DestOf(p, b))
    case CompleteQueue(k) =>
      var b := p.done[k];
      p.(done := Without(p.done, k), free := p.free + [b], freeCount := p.freeCount + 1,
         doneChecks := p.doneChecks + 1)
    case CompleteCheck =>
      p.(doneChecks := p.doneChecks - 1, tbusy := p.tbusy && !(p.freeCount > HIGH_WATER))
  }

  ghost predicate IsRun(p: Pool, acts: seq<Action>, q: Pool)
    decreases |acts|
  {
    if acts == [] then p == q
    else Enabled(p, acts[0]) && IsRun(Step(p, acts[0]), acts[1..], q)
  }

  function Ids(n: nat): (s: seq<Buf>)
    ensures |s| == n && forall i :: 0 <= i < n ==> s[i] == i
  {
    seq(n, i => i)
  }

  function Init(ap: seq<bool>): Pool {
    Pool(Ids(URBS), URBS, [], 0, [], [], [], [], [], [], 0, 0, seq(URBS, _ => None), ap,
         seq(STATIONS, _ => 0), seq(STATIONS, _ => false), false)
  }

  // ---------------------------------------------------------------- every buffer is in one place

  /** In how many places a buffer is. */
  function Places(p: Pool, b: Buf): nat {
    Count(p.free, b) + Count(p.post, b) + Count(p.taken, b) + Count(p.charged, b)
    + Count(p.bus, b) + Count(p.failed, b) + Count(p.inFlight, b) + Count(p.done, b)
  }

  ghost predicate Partition(p: Pool) {
    forall b: Buf :: Places(p, b) == if b < URBS then 1 else 0
  }

  lemma CountHead(s: seq<Buf>, b: Buf)
    requires s != []
    ensures Count(s, b) == Count(s[1..], b) + (if s[0] == b then 1 else 0)
  {
    CountRemove(s, 0, b);
    assert s[..0] + s[1..] == s[1..];
  }

  lemma CountLast(s: seq<Buf>, v: Buf, b: Buf)
    ensures Count(s + [v], b) == Count(s, b) + (if v == b then 1 else 0)
  {
    assert (s + [v])[..|s|] == s;
  }

  lemma SingleCount(v: Buf, b: Buf)
    ensures Count([v], b) == (if v == b then 1 else 0) && Count([], b) == 0
  {
    CountLast([], v, b);
    assert [] + [v] == [v];
  }

  lemma XmitTakePlaces(p: Pool, sta: Option<nat>, b: Buf)
    requires Enabled(p, XmitTake(sta))
    ensures Places(Step(p, XmitTake(sta)), b) == Places(p, b)
  {
    CountHead(p.free, b);
    CountLast(p.taken, p.free[0], b);
  }

  lemma XmitPlaces(p: Pool, a: Action, b: Buf)
    requires Enabled(p, a) && (a.XmitTake? || a.XmitCharge? || a.XmitPost?)
    ensures Places(Step(p, a), b) == Places(p, b)
  {
    hide Count;
    match a
    case XmitTake(sta) =>
      XmitTakePlaces(p, sta, b);
    case XmitCharge(k) =>
      CountRemove(p.taken, k, b);
      CountLast(p.charged, p.taken[k], b);
    case XmitPost(k) =>
      CountRemove(p.charged, k, b);
      CountLast(p.post, p.charged[k], b);
  }

  lemma BusPlaces(p: Pool, a: Action, b: Buf)
    requires Enabled(p, a) && (a.BusTake? || a.BusSubmit? || a.BusRequeue?)
    ensures Places(Step(p, a), b) == Places(p, b)
  {
    hide Count;
    match a
    case BusTake =>
      CountHead(p.post, b);
      SingleCount(p.post[0], b);
    case BusSubmit(ok) =>
      assert p.bus == [p.bus[0]];
      SingleCount(p.bus[0], b);
      CountLast(p.inFlight, p.bus[0], b);
    case BusRequeue =>
      assert p.failed == [p.failed[0]];
      SingleCount(p.failed[0], b);
      CountLast(p.free, p.failed[0], b);
  }

  lemma DonePlaces(p: Pool, a: Action, b: Buf)
    requires Enabled(p, a) && (a.Complete? || a.CompleteQueue?)
    ensures Places(Step(p, a), b) == Places(p, b)
  {
    hide Count;
    match a
    case Complete(k) =>
      CountRemove(p.inFlight, k, b);
      CountLast(p.done, p.inFlight[k], b);
    case CompleteQueue(k) =>
      CountRemove(p.done, k, b);
      CountLast(p.free, p.done[k], b);
  }

  lemma StepPlaces(p: Pool, a: Action, b: Buf)
    requires Enabled(p, a)
    ensures Places(Step(p, a), b) == Places(p, b)
  {
    if a.XmitTake? || a.XmitCharge? || a.XmitPost? {
      XmitPlaces(p, a, b);
    } else if a.BusTake? || a.BusSubmit? || a.BusRequeue? {
      BusPlaces(p, a, b);
    } else if a.Complete? || a.CompleteQueue? {
      DonePlaces(p, a, b);
    }
  }

  // ---------------------------------------------------------------- pending counts

  /** The stations the frames of a list of buffers are charged to. */
  function Dests(bufs: seq<Buf>, p: Pool): (d: seq<Option<nat>>)
    ensures |d| == |bufs| && forall i :: 0 <= i < |bufs| ==> d[i] == DestOf(p, bufs[i])
  {
    seq(|bufs|, i requires 0 <= i < |bufs| => DestOf(p, bufs[i]))
  }

  /** How many outstanding buffers carry a data frame of the station. */
  function Outstanding(p: Pool, s: nat): nat {
    Count(Dests(p.charged, p), Some(s)) + Count(Dests(p.post, p), Some(s))
    + Count(Dests(p.bus, p), Some(s)) + Count(Dests(p.inFlight, p), Some(s))
  }

  function One(p: Pool, b: Buf, s: nat): nat {
    if DestOf(p, b) == Some(s) then 1 else 0
  }

  ghost predicate StationsOk(p: Pool) {
    && |p.dest| == URBS && |p.pending| == STATIONS && |p.flowctrl| == STATIONS && |p.ap| == STATIONS
    && (forall b :: 0 <= b < URBS && p.dest[b].Some? ==> p.dest[b].value < STATIONS)
    && (forall s :: 0 <= s < STATIONS ==> p.pending[s] == Outstanding(p, s))
    && (forall s :: 0 <= s < STATIONS ==> MarksOk(p.ap[s], p.flowctrl[s], p.pending[s]))
  }

  lemma DestsRemove(bufs: seq<Buf>, k: nat, p: Pool, s: nat)
    requires k < |bufs|
    ensures Count(Dests(bufs, p), Some(s)) == Count(Dests(Without(bufs, k), p), Some(s)) + One(p, bufs[k], s)
  {
    assert Dests(Without(bufs, k), p) == Dests(bufs, p)[..k] + Dests(bufs, p)[k + 1..];
    CountRemove(Dests(bufs, p), k, Some(s));
  }

  lemma DestsHead(bufs: seq<Buf>, p: Pool, s: nat)
    requires bufs != []
    ensures Count(Dests(bufs, p), Some(s)) == Count(Dests(bufs[1..], p), Some(s)) + One(p, bufs[0], s)
  {
    DestsRemove(bufs, 0, p, s);
    assert Without(bufs, 0) == bufs[1..];
  }

  lemma DestsAppend(bufs: seq<Buf>, b: Buf, p: Pool, s: nat)
    ensures Count(Dests(bufs + [b], p), Some(s)) == Count(Dests(bufs, p), Some(s)) + One(p, b, s)
  {
    assert Dests(bufs + [b], p)[..|bufs|] == Dests(bufs, p);
  }

  lemma DestsSingle(b: Buf, p: Pool, s: nat)
    ensures Count(Dests([b], p), Some(s)) == One(p, b, s)
    ensures Count(Dests([], p), Some(s)) == 0
  {
    DestsAppend([], b, p, s);
    assert [] + [b] == [b];
  }

  /** Station bookkeeping depends on the outstanding lists and on the destinations only. */
  lemma DestsSame(bufs: seq<Buf>, p: Pool, q: Pool)
    requires forall b :: b in bufs ==> DestOf(p, b) == DestOf(q, b)
    ensures Dests(bufs, p) == Dests(bufs, q)
  {
    forall i | 0 <= i < |bufs|
      ensures Dests(bufs, p)[i] == Dests(bufs, q)[i]
    {
      assert bufs[i] in bufs;
    }
  }

  lemma SameDests(p: Pool, q: Pool)
    requires p.dest == q.dest
    ensures forall bufs: seq<Buf> :: Dests(bufs, p) == Dests(bufs, q)
  {
    forall bufs: seq<Buf>
      ensures Dests(bufs, p) == Dests(bufs, q)
    {
      DestsSame(bufs, p, q);
    }
  }

  /** What a step does to a station's outstanding buffers: one more when a data frame is charged,
      one less when it is discharged. */
  function Delta(p: Pool, a: Action, s: nat): int
    requires Enabled(p, a)
  {
    match a
    case XmitCharge(k) => One(p, p.taken[k], s)
    case BusSubmit(ok) => if ok then 0 else 0 - One(p, p.bus[0], s)
    case Complete(k) => 0 - One(p, p.inFlight[k], s)
    case _ => 0
  }

  lemma TakeOutstanding(p: Pool, a: Action, s: nat)
    requires Partition(p) && a.XmitTake? && Enabled(p, a)
    ensures Outstanding(Step(p, a), s) == Outstanding(p, s)
  {
    var b, q := p.free[0], Step(p, a);
    CountHead(p.free, b);
    assert Places(p, b) <= 1;
    CountZero(p.charged, b);
    CountZero(p.post, b);
    CountZero(p.bus, b);
    CountZero(p.inFlight, b);
    DestsSame(p.charged, p, q);
    DestsSame(p.post, p, q);
    DestsSame(p.bus, p, q);
    DestsSame(p.inFlight, p, q);
  }

  lemma XmitOutstanding(p: Pool, a: Action, s: nat)
    requires Enabled(p, a) && (a.XmitCharge? || a.XmitPost?)
    ensures Outstanding(Step(p, a), s) == Outstanding(p, s) + Delta(p, a, s)
  {
    SameDests(p, Step(p, a));
    match a
    case XmitCharge(k) =>
      DestsAppend(p.charged, p.taken[k], p, s);
    case XmitPost(k) =>
      DestsRemove(p.charged, k, p, s);
      DestsAppend(p.post, p.charged[k], p, s);
  }

  lemma BusOutstanding(p: Pool, a: Action, s: nat)
    requires Enabled(p, a) && (a.BusTake? || a.BusSubmit? || a.Complete?)
    ensures Outstanding(Step(p, a), s) == Outstanding(p, s) + Delta(p, a, s)
  {
    hide Count, Dests;
    SameDests(p, Step(p, a));
    match a
    case BusTake =>
      DestsHead(p.post, p, s);
      DestsSingle(p.post[0], p, s);
    case BusSubmit(ok) =>
      assert p.bus == [p.bus[0]];
      DestsSingle(p.bus[0], p, s);
      DestsAppend(p.inFlight, p.bus[0], p, s);
    case Complete(k) =>
      DestsRemove(p.inFlight, k, p, s);
  }

  lemma StepOutstanding(p: Pool, a: Action, s: nat)
    requires Partition(p) && Enabled(p, a)
    ensures Outstanding(Step(p, a), s) == Outstanding(p, s) + Delta(p, a, s)
  {
    if a.XmitTake? {
      TakeOutstanding(p, a, s);
    } else if a.XmitCharge? || a.XmitPost? {
      XmitOutstanding(p, a, s);
    } else if a.BusTake? || a.BusSubmit? || a.Complete? {
      BusOutstanding(p, a, s);
    } else {
      SameDests(p, Step(p, a));
    }
  }

  /** The two marks of a station. */
  predicate MarksOk(ap: bool, flowctrl: bool, pending: int) {
    if !ap then !flowctrl else if flowctrl then STA_LOW <= pending else pending < STA_HIGH
  }

  lemma ChargeStation(p: Pool, sta: Option<nat>, s: nat)
    requires s < |p.pending| == |p.flowctrl| == |p.ap| && MarksOk(p.ap[s], p.flowctrl[s], p.pending[s])
    ensures var q := Charge(p, sta);
      && |q.pending| == |q.flowctrl| == |p.ap|
      && q.pending[s] == p.pending[s] + (if sta == Some(s) then 1 else 0)
      && MarksOk(p.ap[s], q.flowctrl[s], q.pending[s])
      && q == p.(pending := q.pending, flowctrl := q.flowctrl)
    ensures var q := Discharge(p, sta);
      && |q.pending| == |q.flowctrl| == |p.ap|
      && q.pending[s] == p.pending[s] - (if sta == Some(s) then 1 else 0)
      && MarksOk(p.ap[s], q.flowctrl[s], q.pending[s])
      && q == p.(pending := q.pending, flowctrl := q.flowctrl)
  {
  }

  lemma StepStation(p: Pool, a: Action, s: nat)
    requires Enabled(p, a) && s < |p.pending| == |p.flowctrl| == |p.ap|
    requires MarksOk(p.ap[s], p.flowctrl[s], p.pending[s])
    ensures var q := Step(p, a);
      && |q.pending| == |q.flowctrl| == |p.ap| && q.ap == p.ap
      && q.pending[s] == p.pending[s] + Delta(p, a, s)
      && MarksOk(q.ap[s], q.flowctrl[s], q.pending[s])
  {
    match a
    case XmitCharge(k) =>
      ChargeStation(p.(taken := Without(p.taken, k), charged := p.charged + [p.taken[k]]), DestOf(p, p.taken[k]), s);
    case BusSubmit(ok) =>
      ChargeStation(p.(bus := [], failed := [p.bus[0]]), DestOf(p, p.bus[0]), s);
    case Complete(k) =>
      var b := p.inFlight[k];
      ChargeStation(p.(inFlight := Without(p.inFlight, k), done := p.done + [b]), DestOf(p, b), s);
    case _ =>
  }

  lemma StepStations(p: Pool, a: Action)
    requires Partition(p) && StationsOk(p) && Enabled(p, a)
    ensures StationsOk(Step(p, a))
  {
    hide Enabled, MarksOk, Outstanding, Partition;
    var q := Step(p, a);
    forall s | 0 <= s < STATIONS
      ensures |q.pending| == |q.flowctrl| == |q.ap| == STATIONS
      ensures q.pending[s] == Outstanding(q, s) && MarksOk(q.ap[s], q.flowctrl[s], q.pending[s])
    {
      assert MarksOk(p.ap[s], p.flowctrl[s], p.pending[s]) && p.pending[s] == Outstanding(p, s);
      StepStation(p, a, s);
      StepOutstanding(p, a, s);
    }
    StepDest(p, a);
  }

  lemma StepDest(p: Pool, a: Action)
    requires Enabled(p, a) && |p.dest| == URBS
    requires forall b :: 0 <= b < URBS && p.dest[b].Some? ==> p.dest[b].value < STATIONS
    ensures |Step(p, a).dest| == URBS
    ensures forall b :: 0 <= b < URBS && Step(p, a).dest[b].Some? ==> Step(p, a).dest[b].value < STATIONS
  {
    if !a.XmitTake? {
      hide Step;
      SameDest(p, a);
    }
  }

  lemma SameDest(p: Pool, a: Action)
    requires Enabled(p, a) && !a.XmitTake?
    ensures Step(p, a).dest == p.dest
  {
  }

  // ---------------------------------------------------------------- no lost wake-up

  /** Transmission is not left stopped above the high water mark: a completion handler that will
      wake it is on its way. */
  ghost predicate WakePending(p: Pool) {
    p.tbusy && p.freeCount > HIGH_WATER ==> p.doneChecks > 0
  }

  /** The one step that loses a wake-up: a buffer whose submission failed goes back to the free list
      and brings it above the high water mark while transmission is stopped and no completion
      handler is about to check. */
  predicate LosesWake(p: Pool, a: Action) {
    a.BusRequeue? && p.tbusy && p.freeCount >= HIGH_WATER && p.doneChecks == 0
  }

  /** A step keeps the wake-up promise if and only if it is not that one. */
  lemma WakePendingIff(p: Pool, a: Action)
    requires Enabled(p, a) && WakePending(p)
    ensures WakePending(Step(p, a)) <==> !LosesWake(p, a)
  {
  }

  // ---------------------------------------------------------------- runs

  ghost predicate Inv(p: Pool) {
    && Partition(p) && StationsOk(p)
    && p.freeCount == |p.free| && p.postCount == |p.post|
  }

  lemma {:induction false} IdsCount(n: nat, b: Buf)
    ensures Count(Ids(n), b) == if b < n then 1 else 0
  {
    if n > 0 {
      IdsCount(n - 1, b);
      assert Ids(n)[..n - 1] == Ids(n - 1);
    }
  }

  lemma InitInv(ap: seq<bool>)
    requires |ap| == STATIONS
    ensures Inv(Init(ap)) && WakePending(Init(ap))
  {
    var p := Init(ap);
    forall b: Buf
      ensures Places(p, b) == if b < URBS then 1 else 0
    {
      IdsCount(URBS, b);
    }
    forall s: nat
      ensures Outstanding(p, s) == 0
    {
      DestsSingle(0, p, s);
    }
  }

  lemma StepInv(p: Pool, a: Action)
    requires Inv(p) && Enabled(p, a)
    ensures Inv(Step(p, a))
  {
    forall b: Buf
      ensures Places(Step(p, a), b) == if b < URBS then 1 else 0
    {
      StepPlaces(p, a, b);
    }
    StepStations(p, a);
  }

  /** Over any interleaving: every buffer is in exactly one place, the counters are the list
      lengths, every station's pending count is the number of its outstanding data buffers and obeys
      the two marks; and without failed submissions no wake-up is lost. */
  lemma {:induction false} RunInv(p: Pool, acts: seq<Action>, q: Pool)
    requires Inv(p) && WakePending(p) && IsRun(p, acts, q)
    ensures Inv(q)
    ensures BusSubmit(false) !in acts && p.failed == [] ==> WakePending(q) && q.failed == []
    decreases |acts|
  {
    hide Outstanding, StationsOk;
    if acts != [] {
      StepInv(p, acts[0]);
      if BusSubmit(false) !in acts && p.failed == [] {
        assert acts[0] in acts && forall a :: a in acts[1..] ==> a in acts;
        WakePendingIff(p, acts[0]);
        RunInv(Step(p, acts[0]), acts[1..], q);
      } else {
        RunKeepsInv(Step(p, acts[0]), acts[1..], q);
      }
    }
  }

  lemma {:induction false} RunKeepsInv(p: Pool, acts: seq<Action>, q: Pool)
    requires Inv(p) && IsRun(p, acts, q)
    ensures Inv(q)
    decreases |acts|
  {
    if acts != [] {
      StepInv(p, acts[0]);
      RunKeepsInv(Step(p, acts[0]), acts[1..], q);
    }
  }

  // ---------------------------------------------------------------- failed submissions lose a wake-up

  function Sink(ap: seq<bool>, free: seq<Buf>, post: seq<Buf>, tbusy: bool): Pool {
    Init(ap).(free := free, freeCount := |free|, post := post, postCount := |post|, tbusy := tbusy)
  }

  lemma {:induction false} RunConcat(p: Pool, a: seq<Action>, q: Pool, b: seq<Action>, r: Pool)
    requires IsRun(p, a, q) && IsRun(q, b, r)
    ensures IsRun(p, a + b, r)
    decreases |a|
  {
    if a == [] {
      assert a + b == b;
    } else {
      assert (a + b)[0] == a[0] && (a + b)[1..] == a[1..] + b;
      RunConcat(Step(p, a[0]), a[1..], q, b, r);
    }
  }

  lemma RunCons(p: Pool, a: Action, acts: seq<Action>, q: Pool)
    requires Enabled(p, a) && IsRun(Step(p, a), acts, q)
    ensures IsRun(p, [a] + acts, q)
  {
    assert ([a] + acts)[1..] == acts;
  }

  /** A caller posts a management frame. */
  lemma PostFirst(p: Pool)
    requires p.free != [] && p.free[0] < |p.dest| && p.taken == [] && p.charged == []
    requires p.dest[p.free[0]] == None && p.xmitChecks == 0
    ensures var q := p.(free := p.free[1..], freeCount := p.freeCount - 1,
                        post := p.post + [p.free[0]], postCount := p.postCount + 1,
                        tbusy := p.tbusy || p.freeCount - 1 < LOW_WATER);
      IsRun(p, [XmitTake(None), XmitCharge(0), XmitPost(0), XmitCheck], q)
  {
    hide Discharge;
    var b := p.free[0];
    var p1 := Step(p, XmitTake(None));
    assert p1.taken == [b] && p1.dest == p.dest;
    var p2 := Step(p1, XmitCharge(0));
    assert p2.taken == [] && p2.charged == [b];
    var p3 := Step(p2, XmitPost(0));
    assert p3.charged == [] && p3.post == p.post + [b];
    var p4 := Step(p3, XmitCheck);
    assert Enabled(p, XmitTake(None)) && Enabled(p1, XmitCharge(0)) && Enabled(p2, XmitPost(0));
    assert Enabled(p3, XmitCheck) && IsRun(p4, [], p4);
    hide Step, Enabled;
    RunCons(p3, XmitCheck, [], p4);
    RunCons(p2, XmitPost(0), [XmitCheck], p4);
    RunCons(p1, XmitCharge(0), [XmitPost(0), XmitCheck], p4);
    RunCons(p, XmitTake(None), [XmitCharge(0), XmitPost(0), XmitCheck], p4);
  }

  lemma PostOne(ap: seq<bool>, k: nat, tbusy: bool)
    requires k < URBS
    ensures IsRun(Sink(ap, Ids(URBS)[k..], Ids(URBS)[..k], tbusy),
                  [XmitTake(None), XmitCharge(0), XmitPost(0), XmitCheck],
                  Sink(ap, Ids(URBS)[k + 1..], Ids(URBS)[..k + 1], tbusy || URBS - k - 1 < LOW_WATER))
  {
    hide Step, IsRun;
    assert Ids(URBS)[k..][0] == k && Ids(URBS)[k..][1..] == Ids(URBS)[k + 1..];
    assert Ids(URBS)[..k] + [k] == Ids(URBS)[..k + 1];
    PostFirst(Sink(ap, Ids(URBS)[k..], Ids(URBS)[..k], tbusy));
  }

  lemma {:induction false} PostAll(ap: seq<bool>, k: nat) returns (acts: seq<Action>)
    requires k <= URBS
    ensures IsRun(Init(ap), acts, Sink(ap, Ids(URBS)[k..], Ids(URBS)[..k], URBS - k < LOW_WATER))
  {
    if k == 0 {
      acts := [];
      assert Ids(URBS)[0..] == Ids(URBS) && Ids(URBS)[..0] == [];
    } else {
      var before := PostAll(ap, k - 1);
      var now := [XmitTake(None), XmitCharge(0), XmitPost(0), XmitCheck];
      PostOne(ap, k - 1, URBS - (k - 1) < LOW_WATER);
      acts := before + now;
      RunConcat(Init(ap), before, Sink(ap, Ids(URBS)[k - 1..], Ids(URBS)[..k - 1], URBS - (k - 1) < LOW_WATER),
                now, Sink(ap, Ids(URBS)[k..], Ids(URBS)[..k], URBS - k < LOW_WATER));
    }
  }

  /** The bus thread fails to submit the oldest posted buffer. */
  lemma FailFirst(p: Pool)
    requires p.post != [] && p.post[0] < |p.dest| && p.dest[p.post[0]] == None && p.bus == [] && p.failed == []
    ensures var q := p.(post := p.post[1..], postCount := p.postCount - 1,
                        free := p.free + [p.post[0]], freeCount := p.freeCount + 1);
      IsRun(p, [BusTake, BusSubmit(false), BusRequeue], q)
  {
    var b := p.post[0];
    var p1 := Step(p, BusTake);
    assert p1.bus == [b];
    var p2 := Step(p1, BusSubmit(false));
    assert p2.failed == [b];
    var p3 := Step(p2, BusRequeue);
    RunCons(p2, BusRequeue, [], p3);
    RunCons(p1, BusSubmit(false), [BusRequeue], p3);
    RunCons(p, BusTake, [BusSubmit(false), BusRequeue], p3);
  }

  lemma FailOne(ap: seq<bool>, k: nat)
    requires k < URBS
    ensures IsRun(Sink(ap, Ids(URBS)[..k], Ids(URBS)[k..], true), [BusTake, BusSubmit(false), BusRequeue],
                  Sink(ap, Ids(URBS)[..k + 1], Ids(URBS)[k + 1..], true))
  {
    hide Step, IsRun;
    assert Ids(URBS)[k..][0] == k && Ids(URBS)[k..][1..] == Ids(URBS)[k + 1..];
    assert Ids(URBS)[..k] + [k] == Ids(URBS)[..k + 1];
    FailFirst(Sink(ap, Ids(URBS)[..k], Ids(URBS)[k..], true));
  }

  lemma {:induction false} FailAll(ap: seq<bool>, k: nat) returns (acts: seq<Action>)
    requires k <= URBS
    ensures IsRun(Sink(ap, [], Ids(URBS), true), acts, Sink(ap, Ids(URBS)[..k], Ids(URBS)[k..], true))
  {
    if k == 0 {
      acts := [];
      assert Ids(URBS)[0..] == Ids(URBS) && Ids(URBS)[..0] == [];
    } else {
      var before := FailAll(ap, k - 1);
      var now := [BusTake, BusSubmit(false), BusRequeue];
      FailOne(ap, k - 1);
      acts := before + now;
      RunConcat(Sink(ap, [], Ids(URBS), true), before, Sink(ap, Ids(URBS)[..k - 1], Ids(URBS)[k - 1..], true),
                now, Sink(ap, Ids(URBS)[..k], Ids(URBS)[k..], true));
    }
  }

  /** With failing submissions the promise is false of the driver: all 200 buffers posted and then
      failed leave every buffer free, nobody at work, and transmission stopped. */
  lemma FailedSubmissionsLoseWake(ap: seq<bool>) returns (acts: seq<Action>, q: Pool)
    ensures IsRun(Init(ap), acts, q)
    ensures q.tbusy && q.freeCount == URBS && q.xmitChecks == 0 && q.doneChecks == 0 && !WakePending(q)
  {
    var full, none := Ids(URBS)[..URBS], Ids(URBS)[URBS..];
    assert full == Ids(URBS) && none == [];
    var a := PostAll(ap, URBS);
    var b := FailAll(ap, URBS);
    acts, q := a + b, Sink(ap, full, none, true);
    RunConcat(Init(ap), a, Sink(ap, none, full, true), b, q);
  }
}
