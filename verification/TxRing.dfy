/** The IPC transmit descriptor ring of one (queue, user) pair: free-running 32-bit indices
    over a power-of-two table of host ids, refined to a bounded FIFO. */
module TxRing {
  import opened Words

  /** A `void *` handed over by the caller; 0 is the null pointer. */
  type HostId = nat

  /** What the confirmation callback does with one host id: it accepts or refuses it, and may push
      further descriptors before it returns. */
  datatype Response = Accept(pushes: seq<HostId>) | Refuse(pushes: seq<HostId>)

  /** How a (prefix of a) confirmation loop stands: the ring ran empty, the callback refused, it
      refused after its pushes had filled the slot of the id it refused, or the loop is still going
      because no further answer of the callback is given. */
  datatype Outcome = Drained | Refused | Overrun | Running

  // ---------------------------------------------------------------- slots

  /** The table slot of the n-th descriptor ever pushed: n modulo cnt. */
  function Slot(n: nat, cnt: nat): (s: nat)
    requires 0 < cnt
    ensures s < cnt
  {
    if n < cnt then n else Slot(n - cnt, cnt)
  }

  lemma {:induction false} SlotIsRemainder(n: nat, cnt: nat)
    requires 0 < cnt
    ensures Slot(n, cnt) == n % cnt
  {
    if n < cnt {
      DivModUnique(n, cnt, 0, n);
    } else {
      SlotIsRemainder(n - cnt, cnt);
      ModAdd(n - cnt, cnt, 1);
    }
  }

  lemma SlotsApart(a: nat, b: nat, cnt: nat)
    requires a < b < a + cnt
    ensures Slot(a, cnt) != Slot(b, cnt)
  {
    SlotIsRemainder(a, cnt);
    SlotIsRemainder(b, cnt);
    ModDistinct(a, b, cnt);
  }

  lemma SlotsDistinct(lo: nat, cnt: nat)
    requires 0 < cnt
    ensures forall a: nat, b: nat :: lo <= a < b < lo + cnt ==> Slot(a, cnt) != Slot(b, cnt)
    ensures Slot(lo + cnt, cnt) == Slot(lo, cnt)
  {
    forall a: nat, b: nat | lo <= a < b < lo + cnt
      ensures Slot(a, cnt) != Slot(b, cnt)
    {
      SlotsApart(a, b, cnt);
    }
  }

  /** Masking the wrapped index still finds the slot of the unwrapped one. */
  lemma MaskedIndex(idx: u32, laps: nat, cnt: nat, k: nat)
    requires cnt == Pow2(k) && k <= 32
    ensures And(idx, cnt - 1) == Slot(idx + 0x1_0000_0000 * laps, cnt)
  {
    var w: nat := 32;
    Pow2At32();
    Pow2Add(k, w - k);
    WholeLaps(idx, cnt, Pow2(w - k), laps);
    AndMask(idx, k);
    SlotIsRemainder(idx + 0x1_0000_0000 * laps, cnt);
  }

  lemma WholeLaps(idx: nat, cnt: nat, c: nat, laps: nat)
    requires 0 < cnt && cnt * c == 0x1_0000_0000
    ensures (idx + 0x1_0000_0000 * laps) % cnt == idx % cnt
  {
    assert (cnt * c) * laps == cnt * (c * laps);
    ModAdd(idx, cnt, c * laps);
  }

  // ---------------------------------------------------------------- the FIFO the ring stands for

  /** The ids that a queue of length `len` still takes. */
  function Fitting(len: int, cnt: nat, ids: seq<HostId>): seq<HostId> {
    if len + |ids| <= cnt then ids else if len <= cnt then ids[..cnt - len] else []
  }

  lemma FittingNext(len: nat, cnt: nat, ids: seq<HostId>, i: nat)
    requires len <= cnt && i < |ids|
    ensures Fitting(len, cnt, ids[..i + 1])
            == Fitting(len, cnt, ids[..i]) + (if len + |Fitting(len, cnt, ids[..i])| < cnt then [ids[i]] else [])
  {
    assert ids[..i + 1] == ids[..i] + [ids[i]];
  }

  /** The confirmation loop over a FIFO: what it has done so far. */
  datatype Confirmation = Confirmation(
    handed: seq<HostId>,    // ids given to the callback, in order
    accepted: seq<HostId>,  // ids it accepted, in order
    queued: seq<HostId>,    // ids its answers added to the FIFO, in order
    fifo: seq<HostId>,
    outcome: Outcome)

  function Start(fifo: seq<HostId>): Confirmation {
    Confirmation([], [], [], fifo, Running)
  }

  /** One pass: stop at an empty FIFO, hand over the head, stop at a refusal. */
  function Pass(c: Confirmation, cnt: nat, answer: Response): Confirmation {
    if c.fifo == [] then c.(outcome := Drained)
    else
      var more := Fitting(|c.fifo| - 1, cnt, answer.pushes);
      var d := c.(handed := c.handed + [c.fifo[0]], queued := c.queued + more);
      match answer
      case Refuse(_) =>
        d.(fifo := c.fifo + more, outcome := if |c.fifo + more| <= cnt then Refused else Overrun)
      case Accept(_) =>
        d.(accepted := c.accepted + [c.fifo[0]], fifo := c.fifo[1..] + more)
  }

  function Confirm(c: Confirmation, cnt: nat, answers: seq<Response>): Confirmation
    decreases |answers|
  {
    if answers == [] || c.outcome != Running then c
    else Confirm(Pass(c, cnt, answers[0]), cnt, answers[1..])
  }

  /** Ids are handed over in push order, exactly the accepted prefix is removed, no occurrence is
      confirmed twice (accepted and remaining ids together are the ids queued before and during
      the loop), and a refused id stays at the head. */
  ghost predicate InOrder(fifo: seq<HostId>, cnt: nat, c: Confirmation) {
    && c.accepted + c.fifo == fifo + c.queued
    && |c.fifo| <= (if c.outcome == Overrun then cnt + 1 else cnt)
    && match c.outcome
       case Drained => c.fifo == [] && c.handed == c.accepted
       case Refused => c.fifo != [] && c.handed == c.accepted + [c.fifo[0]]
       case Overrun => |c.fifo| == cnt + 1 && c.handed == c.accepted + [c.fifo[0]]
       case Running => c.handed == c.accepted
  }

  lemma PassInOrder(fifo: seq<HostId>, cnt: nat, c: Confirmation, answer: Response)
    requires InOrder(fifo, cnt, c) && c.outcome == Running
    ensures InOrder(fifo, cnt, Pass(c, cnt, answer))
  {
    if c.fifo != [] {
      var more := Fitting(|c.fifo| - 1, cnt, answer.pushes);
      assert c.accepted + c.fifo + more == fifo + c.queued + more;
      HeadMoves(c.accepted, c.fifo, more);
    }
  }

  lemma HeadAppended(a: seq<HostId>, f: seq<HostId>)
    requires f != []
    ensures (a + [f[0]]) + f[1..] == a + f
  {
  }

  lemma HeadMoves(a: seq<HostId>, f: seq<HostId>, more: seq<HostId>)
    requires f != []
    ensures (a + [f[0]]) + (f[1..] + more) == (a + f) + more == a + (f + more)
  {
    assert [f[0]] + f[1..] == f;
  }

  lemma {:induction false} ConfirmInOrder(fifo: seq<HostId>, cnt: nat, c: Confirmation, answers: seq<Response>)
    requires InOrder(fifo, cnt, c)
    ensures InOrder(fifo, cnt, Confirm(c, cnt, answers))
    decreases |answers|
  {
    if answers != [] && c.outcome == Running {
      PassInOrder(fifo, cnt, c, answers[0]);
      ConfirmInOrder(fifo, cnt, Pass(c, cnt, answers[0]), answers[1..]);
    }
  }

  lemma ConfirmDone(c: Confirmation, cnt: nat, answers: seq<Response>)
    requires answers == [] || c.outcome != Running
    ensures Confirm(c, cnt, answers) == c
  {
  }

  lemma ConfirmUnfold(c: Confirmation, cnt: nat, answers: seq<Response>, i: nat)
    requires i < |answers| && c.outcome == Running
    ensures Confirm(c, cnt, answers[i..]) == Confirm(Pass(c, cnt, answers[i]), cnt, answers[i + 1..])
  {
    assert answers[i..][0] == answers[i] && answers[i..][1..] == answers[i + 1..];
  }

  /** The loop obeys the callback: `n` ids after the first `h` were handed over, one for each answer
      given; all answers but the last were to accept, and the last one too unless the loop ended with a
      refusal; it ends early only with a refusal or an empty queue. */
  ghost predicate AsAnswered(answers: seq<Response>, n: int, accepted: int, outcome: Outcome) {
    && 0 <= accepted <= n <= |answers|
    && (forall i :: 0 <= i < accepted ==> answers[i].Accept?)
    && (outcome == Running <==> n == |answers| && accepted == n)
    && (outcome == Drained ==> n < |answers| && accepted == n)
    && (outcome == Refused || outcome == Overrun ==> n == accepted + 1 && answers[accepted].Refuse?)
  }

  lemma {:induction false} ConfirmAsAnswered(c: Confirmation, cnt: nat, answers: seq<Response>)
    requires c.outcome == Running
    ensures var r := Confirm(c, cnt, answers);
      AsAnswered(answers, |r.handed| - |c.handed|, |r.accepted| - |c.accepted|, r.outcome)
    decreases |answers|
  {
    if answers != [] {
      var next := Pass(c, cnt, answers[0]);
      if next.outcome == Running {
        ConfirmAsAnswered(next, cnt, answers[1..]);
      }
    }
  }

  /** A callback that always accepts and pushes nothing drains the FIFO in one pass per id and
      one pass to find it empty. */
  lemma {:induction false} AcceptingCallbackDrains(c: Confirmation, cnt: nat, answers: seq<Response>)
    requires c.outcome == Running && |c.fifo| <= cnt && |c.fifo| < |answers|
    requires forall i :: 0 <= i < |answers| ==> answers[i] == Accept([])
    ensures Confirm(c, cnt, answers) == Confirmation(c.handed + c.fifo, c.accepted + c.fifo, c.queued, [], Drained)
    decreases |answers|
  {
    assert answers[0] == Accept([]);
    if c.fifo == [] {
      assert Confirm(Pass(c, cnt, answers[0]), cnt, answers[1..]) == Pass(c, cnt, answers[0]);
      assert c.handed + [] == c.handed && c.accepted + [] == c.accepted;
    } else {
      var next := Pass(c, cnt, answers[0]);
      assert next.fifo == c.fifo[1..] && next.queued == c.queued;
      AcceptingCallbackDrains(next, cnt, answers[1..]);
      HeadAppended(c.handed, c.fifo);
      HeadAppended(c.accepted, c.fifo);
    }
  }

  // ---------------------------------------------------------------- the ring itself

  /** The table holds exactly the ids from number `lo` on; every other slot is null. */
  ghost predicate Window(slots: seq<HostId>, pushed: seq<HostId>, lo: nat) {
    && 0 < |slots| && lo <= |pushed| <= lo + |slots| && 0 !in pushed
    && (forall n: nat :: lo <= n < |pushed| ==> slots[Slot(n, |slots|)] == pushed[n])
    && (forall n: nat :: |pushed| <= n < lo + |slots| ==> slots[Slot(n, |slots|)] == 0)
  }

  lemma WindowPush(slots: seq<HostId>, pushed: seq<HostId>, lo: nat, id: HostId)
    requires Window(slots, pushed, lo) && |pushed| < lo + |slots| && id != 0
    ensures slots[Slot(|pushed|, |slots|)] == 0
    ensures Window(slots[Slot(|pushed|, |slots|) := id], pushed + [id], lo)
  {
    SlotsDistinct(lo, |slots|);
  }

  lemma WindowPop(slots: seq<HostId>, pushed: seq<HostId>, lo: nat)
    requires Window(slots, pushed, lo)
    ensures var s := Slot(lo, |slots|);
      if lo == |pushed| then slots[s] == 0
      else slots[s] == pushed[lo] != 0 && Window(slots[s := 0], pushed, lo + 1)
  {
    SlotsDistinct(lo, |slots|);
    if lo < |pushed| {
      assert pushed[lo] in pushed;
    }
  }

  /** A refused id, number `lo`, is written back into its slot of the table `slots` that the
      callback's pushes left.  The table is again that of the queue, the new ids included, if and
      only if these did not take the slot; otherwise the last of them is missing from it. */
  lemma RefusalAfterPushes(slots: seq<HostId>, pushed: seq<HostId>, lo: nat)
    requires lo < |pushed| && Window(slots, pushed, lo + 1)
    ensures var back := slots[Slot(lo, |slots|) := pushed[lo]];
      && (Window(back, pushed, lo) <==> |pushed| <= lo + |slots|)
      && (|pushed| == lo + |slots| + 1 ==> Window(back, pushed[..|pushed| - 1], lo))
  {
    if |pushed| <= lo + |slots| {
      WriteBack(slots, pushed, lo);
    } else {
      WriteBackFull(slots, pushed, lo);
    }
  }

  lemma WriteBack(slots: seq<HostId>, pushed: seq<HostId>, lo: nat)
    requires lo < |pushed| <= lo + |slots| && Window(slots, pushed, lo + 1)
    ensures Window(slots[Slot(lo, |slots|) := pushed[lo]], pushed, lo)
  {
    hide Slot;
    var cnt := |slots|;
    var back := slots[Slot(lo, cnt) := pushed[lo]];
    forall n: nat | lo <= n < lo + cnt
      ensures back[Slot(n, cnt)] == if n < |pushed| then pushed[n] else 0
    {
      if n > lo {
        SlotsApart(lo, n, cnt);
      }
    }
  }

  lemma WriteBackFull(slots: seq<HostId>, pushed: seq<HostId>, lo: nat)
    requires lo < |pushed| == lo + |slots| + 1 && Window(slots, pushed, lo + 1)
    ensures Window(slots[Slot(lo, |slots|) := pushed[lo]], pushed[..|pushed| - 1], lo)
  {
    hide Slot;
    var cnt, most := |slots|, pushed[..|pushed| - 1];
    var back := slots[Slot(lo, cnt) := pushed[lo]];
    forall n: nat | lo <= n < lo + cnt
      ensures back[Slot(n, cnt)] == most[n]
    {
      if n > lo {
        SlotsApart(lo, n, cnt);
      }
    }
  }

  lemma HeadBack(removed: seq<HostId>, id: HostId, rest: seq<HostId>)
    requires removed != [] && removed[|removed| - 1] == id
    ensures removed + rest == removed[..|removed| - 1] + ([id] + rest)
  {
    assert removed == removed[..|removed| - 1] + [id];
  }

  /** The full test by wrapped addition and the wrapped difference are exact while the unwrapped
      indices are at most `cnt` apart. */
  lemma FullTest(used: u32, usedLaps: nat, free: u32, freeLaps: nat, cnt: nat)
    requires 0 <= (free + 0x1_0000_0000 * freeLaps) - (used + 0x1_0000_0000 * usedLaps) <= cnt < 0x1_0000_0000
    ensures free == Wrap32(used + cnt) <==> free + 0x1_0000_0000 * freeLaps == used + 0x1_0000_0000 * usedLaps + cnt
    ensures free == used <==> free + 0x1_0000_0000 * freeLaps == used + 0x1_0000_0000 * usedLaps
    ensures Wrap32(free - used) == (free + 0x1_0000_0000 * freeLaps) - (used + 0x1_0000_0000 * usedLaps)
  {
  }

  /** A 32-bit index plus one, and the number of laps that goes with it. */
  method Increment(idx: u32, ghost laps: nat) returns (next: u32, ghost nextLaps: nat)
    ensures next == Wrap32(idx as int + 1)
    ensures next + 0x1_0000_0000 * nextLaps == idx + 0x1_0000_0000 * laps + 1
  {
    next := Wrap32(idx as int + 1);
    nextLaps := if idx + 1 == 0x1_0000_0000 then laps + 1 else laps;
  }

  class Ring {
    const cnt: nat
    ghost const bits: nat
    const hostId: array<HostId>
    var freeIdx: u32
    var usedIdx: u32

    /** Everything ever pushed and everything ever removed, oldest first. */
    ghost var pushed: seq<HostId>
    ghost var removed: seq<HostId>

    /** The queue the ring stands for. */
    ghost var fifo: seq<HostId>

    /** How often each index has wrapped around. */
    ghost var freeLaps: nat
    ghost var usedLaps: nat

    ghost predicate Valid()
      reads this, hostId
    {
      && cnt == Pow2(bits) && bits <= 31 && hostId.Length == cnt < 0x1_0000_0000
      && pushed == removed + fifo
      && freeIdx + 0x1_0000_0000 * freeLaps == |pushed| && usedIdx + 0x1_0000_0000 * usedLaps == |removed|
      && Window(hostId[..], pushed, |removed|)
    }

    /** The queue never exceeds the table, its length is the wrapped difference of the 32-bit
        indices, and slot by slot, from that of the used index on, the table holds the queue and
        then null. */
    lemma RefinesFifo()
      requires Valid()
      ensures |fifo| <= cnt && |fifo| == Wrap32(freeIdx - usedIdx)
      ensures forall k: nat :: k < cnt ==>
        hostId[Slot(usedIdx + 0x1_0000_0000 * usedLaps + k, cnt)] == if k < |fifo| then fifo[k] else 0
    {
      FullTest(usedIdx, usedLaps, freeIdx, freeLaps, cnt);
      forall k: nat | k < cnt
        ensures hostId[Slot(|removed| + k, cnt)] == if k < |fifo| then fifo[k] else 0
      {
        assert hostId[..][Slot(|removed| + k, cnt)] == hostId[Slot(|removed| + k, cnt)];
        assert k < |fifo| ==> pushed[|removed| + k] == fifo[k];
      }
    }

    /** One id more than the ring can hold: the last one pushed is in the log and in no slot. */
    ghost predicate Overfull()
      reads this, hostId
    {
      && |fifo| == cnt + 1 && hostId.Length == cnt
      && pushed == removed + fifo
      && freeIdx + 0x1_0000_0000 * freeLaps == |pushed| && usedIdx + 0x1_0000_0000 * usedLaps == |removed|
      && Window(hostId[..], pushed[..|pushed| - 1], |removed|)
    }

    constructor (cnt: nat, ghost bits: nat)
      requires cnt == Pow2(bits) && bits <= 31 && cnt < 0x1_0000_0000
      ensures Valid() && fresh(hostId) && this.cnt == cnt && fifo == [] && pushed == []
    {
      this.cnt := cnt;
      this.bits := bits;
      hostId := new HostId[cnt](_ => 0);
      freeIdx, usedIdx, freeLaps, usedLaps := 0, 0, 0, 0;
      pushed, removed, fifo := [], [], [];
    }

    /** The slot that the masked index selects. */
    method MaskIndex(idx: u32, ghost laps: nat) returns (slot: nat)
      requires Valid()
      ensures slot == Slot(idx + 0x1_0000_0000 * laps, cnt)
    {
      MaskedIndex(idx, laps, cnt, bits);
      slot := And(idx, cnt - 1);
    }

    method WriteSlot(slot: nat, id: HostId)
      requires slot < hostId.Length
      modifies hostId
      ensures hostId[..] == old(hostId[..])[slot := id]
    {
      hostId[slot] := id;
    }

    /** ipc_host_txdesc_get: the first free descriptor, NULL exactly when the FIFO is full. */
    method TxdescGet() returns (desc: Option<nat>)
      requires Valid()
      ensures desc.None? <==> |fifo| == cnt
      ensures desc.Some? ==> desc.value == Slot(|pushed|, cnt) && hostId[desc.value] == 0
    {
      FullTest(usedIdx, usedLaps, freeIdx, freeLaps, cnt);
      if freeIdx != Wrap32(usedIdx as int + cnt) {
        var slot := MaskIndex(freeIdx, freeLaps);
        WindowPush(hostId[..], pushed, |removed|, 1);
        desc := Some(slot);
      } else {
        desc := None;
      }
    }

    /** ipc_host_txdesc_push: enqueue, for a caller that got a descriptor. */
    method TxdescPush(id: HostId)
      requires Valid() && id != 0 && |fifo| < cnt
      modifies this`freeIdx, this`freeLaps, this`pushed, this`fifo, hostId
      ensures Valid() && fifo == old(fifo) + [id] && pushed == old(pushed) + [id]
    {
      hide Pow2, Slot, Window;
      var slot := MaskIndex(freeIdx, freeLaps);
      WindowPush(hostId[..], pushed, |removed|, id);
      WriteSlot(slot, id);
      freeIdx, freeLaps := Increment(freeIdx, freeLaps);
      pushed, fifo := pushed + [id], fifo + [id];
    }

    /** ipc_host_tx_flush: dequeue the oldest id, NULL exactly when the FIFO is empty. */
    method TxFlush() returns (id: HostId)
      requires Valid()
      modifies this`usedIdx, this`usedLaps, this`removed, this`fifo, hostId
      ensures Valid() && pushed == old(pushed)
      ensures id == 0 <==> old(fifo) == []
      ensures fifo == if old(fifo) == [] then [] else old(fifo)[1..]
      ensures id != 0 ==> id == old(fifo)[0] && removed == old(removed) + [id]
    {
      hide Slot, Window, Wrap32;
      var slot := MaskIndex(usedIdx, usedLaps);
      WindowPop(hostId[..], pushed, |removed|);
      id := hostId[..][slot];
      if id != 0 {
        WriteSlot(slot, 0);
        usedIdx, usedLaps := Increment(usedIdx, usedLaps);
        removed, fifo := removed + [id], fifo[1..];
      }
    }

    /** A callback that is told of free descriptors pushes as many as the full test lets through. */
    method PushMany(ids: seq<HostId>)
      requires Valid() && 0 !in ids
      modifies this`freeIdx, this`freeLaps, this`pushed, this`fifo, hostId
      ensures Valid() && fifo == old(fifo) + Fitting(|old(fifo)|, cnt, ids)
      ensures ids == [] ==> hostId[..] == old(hostId[..]) && freeIdx == old(freeIdx) && pushed == old(pushed)
    {
      hide Slot;
      for i := 0 to |ids|
        invariant i == 0 ==> hostId[..] == old(hostId[..]) && freeIdx == old(freeIdx) && pushed == old(pushed)
        invariant Valid() && |old(fifo)| <= cnt
        invariant fifo == old(fifo) + Fitting(|old(fifo)|, cnt, ids[..i])
      {
        FittingNext(|old(fifo)|, cnt, ids, i);
        var desc := TxdescGet();
        if desc.Some? {
          TxdescPush(ids[i]);
        }
      }
      assert ids[..|ids|] == ids;
    }

    /** One pass of the confirmation loop.  The used index is advanced and the slot cleared before
        the callback runs, and both are put back when it refuses or when there was no id. */
    method TxCfmStep(answer: Response) returns (id: HostId)
      requires Valid()
      requires 0 !in answer.pushes
      modifies this, hostId
      ensures id == 0 <==> old(fifo) == []
      ensures id != 0 ==> id == old(fifo)[0]
      ensures id == 0 || answer == Refuse([]) ==>
        && Valid() && hostId[..] == old(hostId[..]) && freeIdx == old(freeIdx) && usedIdx == old(usedIdx)
        && pushed == old(pushed) && removed == old(removed) && fifo == old(fifo)
      ensures id != 0 && answer.Accept? ==>
        && Valid() && removed == old(removed) + [id]
        && fifo == old(fifo)[1..] + Fitting(|old(fifo)| - 1, cnt, answer.pushes)
      ensures id != 0 && answer.Refuse? ==>
        && removed == old(removed) && usedIdx == old(usedIdx)
        && fifo == old(fifo) + Fitting(|old(fifo)| - 1, cnt, answer.pushes)
        && if |fifo| <= cnt then Valid() else Overfull()
    {
      hide Fitting, Overfull, Slot;
      ghost var was, laps := fifo, usedLaps;
      var used := usedIdx;
      var slot;
      id, slot := TakeHead();
      if id == 0 {
        usedIdx, usedLaps := used, laps;
        return;
      }
      ghost var rest, more := fifo, Fitting(|fifo|, cnt, answer.pushes);
      PushMany(answer.pushes);
      if answer.Refuse? {
        PutBack(used, laps, slot, id, rest, more);
        assert was == [id] + rest && was + more == [id] + (rest + more);
      }
    }

    /** The pass up to the callback. */
    method TakeHead() returns (id: HostId, slot: nat)
      requires Valid()
      modifies this`usedIdx, this`usedLaps, this`removed, this`fifo, hostId
      ensures id == 0 <==> old(fifo) == []
      ensures slot == Slot(|old(removed)|, cnt)
      ensures id == 0 ==> fifo == [] && removed == old(removed) && hostId[..] == old(hostId[..])
      ensures id != 0 ==>
        && Valid() && id == old(fifo)[0] && fifo == old(fifo)[1..] && removed == old(removed) + [id]
        && hostId[..] == old(hostId[..])[slot := 0]
    {
      hide Slot, Window, Wrap32;
      WindowPop(hostId[..], pushed, |removed|);
      slot := MaskIndex(usedIdx, usedLaps);
      usedIdx, usedLaps := Increment(usedIdx, usedLaps);
      id := hostId[..][slot];
      WriteSlot(slot, 0);
      if id == 0 {
        assert hostId[..] == old(hostId[..]);
      } else {
        removed, fifo := removed + [id], fifo[1..];
        assert pushed == removed + fifo;
      }
    }

    /** The rollback at a refusal, after `more` have been pushed behind `rest`. */
    method PutBack(used: u32, ghost laps: nat, slot: nat, id: HostId, ghost rest: seq<HostId>, ghost more: seq<HostId>)
      requires Valid() && fifo == rest + more && |removed| > 0 && removed[|removed| - 1] == id
      requires used + 0x1_0000_0000 * laps == |removed| - 1 && slot == Slot(|removed| - 1, cnt)
      modifies this`usedIdx, this`usedLaps, this`removed, this`fifo, hostId
      ensures usedIdx == used && removed == old(removed)[..|old(removed)| - 1] && fifo == [id] + (rest + more)
      ensures hostId[..] == old(hostId[..])[slot := id]
      ensures if |fifo| <= cnt then Valid() else Overfull()
    {
      var lo := |removed| - 1;
      RefusalAfterPushes(hostId[..], pushed, lo);
      HeadBack(removed, id, rest + more);
      usedIdx, usedLaps := used, laps;
      WriteSlot(slot, id);
      removed, fifo := removed[..lo], [id] + (rest + more);
    }

    /** ipc_host_tx_cfm_handler, with the callback's answers given as a list. */
    method TxCfmHandler(answers: seq<Response>)
      returns (handed: seq<HostId>, accepted: seq<HostId>, ghost outcome: Outcome)
      requires Valid()
      requires forall i :: 0 <= i < |answers| ==> 0 !in answers[i].pushes
      modifies this, hostId
      ensures if outcome == Overrun then Overfull() else Valid()
      ensures removed == old(removed) + accepted
      ensures var c := Confirm(Start(old(fifo)), cnt, answers);
        && InOrder(old(fifo), cnt, c)
        && handed == c.handed && accepted == c.accepted && fifo == c.fifo && outcome == c.outcome
      ensures AsAnswered(answers, |handed|, |accepted|, outcome)
    {
      hide AsAnswered, Confirm, Fitting, InOrder, Overfull;
      assert |fifo| <= cnt;
      ghost var c, goal := Start(fifo), Confirm(Start(fifo), cnt, answers);
      ConfirmInOrder(fifo, cnt, c, answers);
      ConfirmAsAnswered(c, cnt, answers);
      handed, accepted, outcome := [], [], Running;
      var i, going := 0, true;
      assert answers[0..] == answers;
      while going && i < |answers|
        invariant 0 <= i <= |answers| && going == (outcome == Running)
        invariant if outcome == Overrun then Overfull() else Valid()
        invariant removed == old(removed) + accepted
        invariant c.handed == handed && c.accepted == accepted && c.fifo == fifo && c.outcome == outcome
        invariant Confirm(c, cnt, answers[i..]) == goal
      {
        var answer := answers[i];
        ConfirmUnfold(c, cnt, answers, i);
        var id := TxCfmStep(answer);
        if id != 0 {
          handed := handed + [id];
        }
        going := id != 0 && answer.Accept?;
        if going {
          accepted := accepted + [id];
        }
        c := Pass(c, cnt, answer);
        outcome := c.outcome;
        i := i + 1;
      }
      ConfirmDone(c, cnt, answers[i..]);
    }
  }

  /** ipc_host_tx_frames_pending: some queue of some user holds an unconfirmed frame. */
  method TxFramesPending(rings: seq<seq<Ring>>) returns (pending: bool)
    requires forall i, j :: 0 <= i < |rings| && 0 <= j < |rings[i]| ==> rings[i][j].Valid()
    ensures pending <==> exists i, j :: 0 <= i < |rings| && 0 <= j < |rings[i]| && rings[i][j].fifo != []
  {
    pending := false;
    var i := 0;
    while i < |rings| && !pending
      invariant 0 <= i <= |rings|
      invariant pending ==> exists p, q :: 0 <= p < |rings| && 0 <= q < |rings[p]| && rings[p][q].fifo != []
      invariant !pending ==> forall p, q :: 0 <= p < i && 0 <= q < |rings[p]| ==> rings[p][q].fifo == []
    {
      var j := 0;
      while j < |rings[i]|
        invariant 0 <= j <= |rings[i]| && !pending
        invariant forall q :: 0 <= q < j ==> rings[i][q].fifo == []
      {
        ghost var r := rings[i][j];
        FullTest(r.usedIdx, r.usedLaps, r.freeIdx, r.freeLaps, r.cnt);
        if rings[i][j].usedIdx != rings[i][j].freeIdx {
          pending := true;
          break;
        }
        j := j + 1;
      }
      i := i + 1;
    }
  }
}
