/** The eight-level frame queue of the bus layer, refined to a single list of frames in order of
    arrival, each with the level it was queued at. */
module FrameQueue {
  import opened Counting
  import opened Sequences
  import opened Words

  type Frame = nat

  datatype Entry = Entry(prio: nat, frame: Frame)

  // ---------------------------------------------------------------- the priority queue

  /** The next entry to leave: the oldest of those at the highest occupied level. */
  ghost predicate IsNext(es: seq<Entry>, k: nat) {
    && k < |es|
    && (forall i :: 0 <= i < |es| ==> es[i].prio <= es[k].prio)
    && (forall i :: 0 <= i < k ==> es[i].prio < es[k].prio)
  }

  /** The entry that gives way at capacity: the newest of those at the lowest occupied level. */
  ghost predicate IsVictim(es: seq<Entry>, k: nat) {
    && k < |es|
    && (forall i :: 0 <= i < |es| ==> es[k].prio <= es[i].prio)
    && (forall i :: k < i < |es| ==> es[k].prio < es[i].prio)
  }

  function Next(es: seq<Entry>): (k: nat)
    requires es != []
    ensures IsNext(es, k)
  {
    if |es| == 1 then 0
    else
      var k := Next(es[..|es| - 1]);
      if es[k].prio < es[|es| - 1].prio then |es| - 1 else k
  }

  function Victim(es: seq<Entry>): (k: nat)
    requires es != []
    ensures IsVictim(es, k)
  {
    if |es| == 1 then 0
    else
      var k := Victim(es[..|es| - 1]);
      if es[|es| - 1].prio <= es[k].prio then |es| - 1 else k
  }

  lemma NextUnique(es: seq<Entry>, k: nat)
    requires IsNext(es, k)
    ensures Next(es) == k
  {
    var n := Next(es);
    assert es[n].prio == es[k].prio;
  }

  lemma VictimUnique(es: seq<Entry>, k: nat)
    requires IsVictim(es, k)
    ensures Victim(es) == k
  {
    var n := Victim(es);
    assert es[n].prio == es[k].prio;
  }

  datatype Op = Enqueue(frame: Frame, prio: nat) | Dequeue | Flush

  /** What one operation does: the frames it takes over, hands out and frees. */
  datatype Effect = Effect(entries: seq<Entry>, taken: seq<Frame>, delivered: seq<Frame>, freed: seq<Frame>)

  function Frames(es: seq<Entry>): seq<Frame> {
    seq(|es|, i requires 0 <= i < |es| => es[i].frame)
  }

  function Apply(es: seq<Entry>, qmax: nat, op: Op): Effect {
    match op
    case Enqueue(frame, prio) =>
      if |es| < qmax then Effect(es + [Entry(prio, frame)], [frame], [], [])
      else if es == [] || prio <= es[Victim(es)].prio then Effect(es, [], [], [])
      else
        var k := Victim(es);
        Effect(Without(es, k) + [Entry(es[k].prio, frame)], [frame], [], [es[k].frame])
    case Dequeue =>
      if es == [] then Effect(es, [], [], [])
      else Effect(Without(es, Next(es)), [], [es[Next(es)].frame], [])
    case Flush => Effect([], [], [], Frames(es))
  }

  /** `after` is the queue in which `frame`, at the level of entry `k`, has come for entry `k`: last of
      all, and the other entries as they stood. */
  ghost predicate Supplants(es: seq<Entry>, k: nat, frame: Frame, after: seq<Entry>) {
    && k < |es| && after == es[..k] + es[k + 1..] + [Entry(es[k].prio, frame)]
  }

  /** Below capacity a frame is queued at its own level. At capacity it is taken exactly when some
      frame is queued at a strictly lower level: then the newest frame of the lowest level is freed,
      and the newcomer is queued there. Otherwise nothing changes. */
  lemma EnqueueIff(es: seq<Entry>, qmax: nat, frame: Frame, prio: nat)
    ensures var e := Apply(es, qmax, Enqueue(frame, prio));
      && e.taken == (if |es| < qmax || exists i :: 0 <= i < |es| && es[i].prio < prio then [frame] else [])
      && e.delivered == []
      && (|es| < qmax ==> e.entries == es + [Entry(prio, frame)] && e.freed == [])
      && (e.taken == [] ==> e.entries == es && e.freed == [])
      && (|es| >= qmax && e.taken != [] ==>
            exists k: nat :: IsVictim(es, k) && es[k].prio < prio && e.freed == [es[k].frame]
                        && Supplants(es, k, frame, e.entries))
  {
    if |es| >= qmax && es != [] {
      var k := Victim(es);
      assert IsVictim(es, k);
      if es[k].prio < prio {
        assert Supplants(es, k, frame, Apply(es, qmax, Enqueue(frame, prio)).entries);
      }
    }
  }

  /** Dequeuing takes the oldest frame of the highest level, and leaves the others as they stood. */
  lemma DequeueTakes(es: seq<Entry>, qmax: nat, k: nat)
    requires IsNext(es, k)
    ensures Apply(es, qmax, Dequeue) == Effect(es[..k] + es[k + 1..], [], [es[k].frame], [])
  {
    NextUnique(es, k);
  }

  // ---------------------------------------------------------------- levels are filters

  /** The frames queued at one level, oldest first. */
  function Level(es: seq<Entry>, p: nat): seq<Frame> {
    if es == [] then []
    else
      var last := es[|es| - 1];
      Level(es[..|es| - 1], p) + (if last.prio == p then [last.frame] else [])
  }

  lemma {:induction false} LevelConcat(a: seq<Entry>, b: seq<Entry>, p: nat)
    ensures Level(a + b, p) == Level(a, p) + Level(b, p)
  {
    if b == [] {
      assert a + b == a;
    } else {
      LevelConcat(a, b[..|b| - 1], p);
      assert (a + b)[..|a + b| - 1] == a + b[..|b| - 1];
    }
  }

  lemma LevelsAppend(es: seq<Entry>, e: Entry)
    ensures forall p: nat :: Level(es + [e], p) == if p == e.prio then Level(es, p) + [e.frame] else Level(es, p)
  {
    assert (es + [e])[..|es|] == es;
  }

  lemma {:induction false} LevelEmpty(es: seq<Entry>, p: nat)
    ensures Level(es, p) == [] <==> forall i :: 0 <= i < |es| ==> es[i].prio != p
  {
    if es != [] {
      LevelEmpty(es[..|es| - 1], p);
    }
  }

  lemma {:induction false} LevelLength(es: seq<Entry>, p: nat)
    ensures |Level(es, p)| <= |es|
    ensures |Level(es, p)| == |es| ==> forall i :: 0 <= i < |es| ==> es[i].prio == p
  {
    if es != [] {
      LevelLength(es[..|es| - 1], p);
    }
  }

  lemma LevelRemove(es: seq<Entry>, k: nat, p: nat)
    requires k < |es|
    ensures Level(es, p) == Level(es[..k], p) + (if es[k].prio == p then [es[k].frame] else []) + Level(es[k + 1..], p)
    ensures Level(Without(es, k), p) == Level(es[..k], p) + Level(es[k + 1..], p)
  {
    assert es == (es[..k] + [es[k]]) + es[k + 1..];
    LevelConcat(es[..k] + [es[k]], es[k + 1..], p);
    LevelConcat(es[..k], [es[k]], p);
    LevelConcat(es[..k], es[k + 1..], p);
    assert [es[k]][..0] == [];
  }

  /** Taking the next entry out takes the head of its level. */
  lemma LevelNext(es: seq<Entry>, p: nat)
    requires es != []
    ensures var e := es[Next(es)];
      if p == e.prio then Level(es, p) == [e.frame] + Level(Without(es, Next(es)), p)
      else Level(Without(es, Next(es)), p) == Level(es, p)
  {
    NoneBefore(es, Next(es));
    LevelRemove(es, Next(es), p);
  }

  lemma NoneBefore(es: seq<Entry>, k: nat)
    requires IsNext(es, k)
    ensures Level(es[..k], es[k].prio) == []
  {
    LevelEmpty(es[..k], es[k].prio);
  }

  /** The newest entry at a level, or the number of entries when the level is empty. */
  function LastAt(es: seq<Entry>, p: nat): (k: nat)
    ensures k <= |es|
    ensures k < |es| ==> es[k].prio == p
    ensures k == |es| ==> forall i :: 0 <= i < |es| ==> es[i].prio != p
    ensures forall i :: k < i < |es| ==> es[i].prio != p
  {
    if es == [] then 0
    else if es[|es| - 1].prio == p then |es| - 1
    else
      var k := LastAt(es[..|es| - 1], p);
      if k == |es| - 1 then |es| else k
  }

  lemma VictimIsLast(es: seq<Entry>)
    requires es != []
    ensures LastAt(es, es[Victim(es)].prio) == Victim(es)
  {
    var p := es[Victim(es)].prio;
    assert !(forall i :: 0 <= i < |es| ==> es[i].prio != p);
  }

  /** Taking the newest entry of a level out takes the tail of that level. */
  lemma LevelTail(es: seq<Entry>, k: nat, p: nat)
    requires k < |es| && k == LastAt(es, es[k].prio)
    ensures if p == es[k].prio then Level(es, p) == Level(Without(es, k), p) + [es[k].frame]
            else Level(Without(es, k), p) == Level(es, p)
  {
    NoneAfter(es, k);
    LevelRemove(es, k, p);
  }

  lemma NoneAfter(es: seq<Entry>, k: nat)
    requires k < |es| && k == LastAt(es, es[k].prio)
    ensures Level(es[k + 1..], es[k].prio) == []
  {
    LevelEmpty(es[k + 1..], es[k].prio);
  }

  // ---------------------------------------------------------------- whole runs

  function Run(es: seq<Entry>, qmax: nat, ops: seq<Op>): Effect
    decreases |ops|
  {
    if ops == [] then Effect(es, [], [], [])
    else
      var first := Apply(es, qmax, ops[0]);
      var rest := Run(first.entries, qmax, ops[1..]);
      Effect(rest.entries, first.taken + rest.taken, first.delivered + rest.delivered, first.freed + rest.freed)
  }

  /** Every frame taken over (or queued before) has been delivered, freed, or is still queued,
      each occurrence once. */
  ghost predicate Conserves(es: seq<Entry>, e: Effect, f: Frame) {
    Count(Frames(es), f) + Count(e.taken, f)
    == Count(e.delivered, f) + Count(e.freed, f) + Count(Frames(e.entries), f)
  }

  lemma FramesRemove(es: seq<Entry>, k: nat, f: Frame)
    requires k < |es|
    ensures Count(Frames(es), f) == Count(Frames(Without(es, k)), f) + Count([es[k].frame], f)
  {
    assert Frames(Without(es, k)) == Frames(es)[..k] + Frames(es)[k + 1..];
    CountRemove(Frames(es), k, f);
  }

  lemma FramesAppend(es: seq<Entry>, e: Entry, f: Frame)
    ensures Count(Frames(es + [e]), f) == Count(Frames(es), f) + Count([e.frame], f)
  {
    assert Frames(es + [e]) == Frames(es) + [e.frame];
    CountConcat(Frames(es), [e.frame], f);
  }

  lemma ApplyConserves(es: seq<Entry>, qmax: nat, op: Op, f: Frame)
    requires |es| <= qmax
    ensures |Apply(es, qmax, op).entries| <= qmax
    ensures Conserves(es, Apply(es, qmax, op), f)
  {
    match op
    case Enqueue(frame, prio) =>
      if |es| < qmax {
        FramesAppend(es, Entry(prio, frame), f);
      } else if es != [] && es[Victim(es)].prio < prio {
        var k := Victim(es);
        FramesRemove(es, k, f);
        FramesAppend(Without(es, k), Entry(es[k].prio, frame), f);
      }
    case Dequeue =>
      if es != [] {
        FramesRemove(es, Next(es), f);
      }
    case Flush =>
      assert Frames([]) == [];
  }

  /** Over any run the queue stays within its capacity and loses or duplicates nothing. */
  lemma {:induction false} RunConserves(es: seq<Entry>, qmax: nat, ops: seq<Op>, f: Frame)
    requires |es| <= qmax
    ensures |Run(es, qmax, ops).entries| <= qmax
    ensures Conserves(es, Run(es, qmax, ops), f)
    decreases |ops|
  {
    if ops != [] {
      var first := Apply(es, qmax, ops[0]);
      ApplyConserves(es, qmax, ops[0], f);
      RunConserves(first.entries, qmax, ops[1..], f);
      var rest := Run(first.entries, qmax, ops[1..]);
      CountConcat(first.taken, rest.taken, f);
      CountConcat(first.delivered, rest.delivered, f);
      CountConcat(first.freed, rest.freed, f);
    }
  }

  // ---------------------------------------------------------------- the queue as built

  class FrameQueue {
    const numPrio: nat
    const qmax: u16
    const queuelist: array<seq<Frame>>
    var hiPrio: nat
    var qcnt: nat

    /** Every queued frame with the level it was queued at, in order of arrival. */
    ghost var entries: seq<Entry>

    /** The levels hold the queued frames in order of arrival, and none above `hiPrio`. */
    ghost predicate Sound()
      reads this, queuelist
    {
      && queuelist.Length == 8 && 1 <= numPrio <= 8 && hiPrio < numPrio
      && qcnt == |entries|
      && (forall p :: 0 <= p < 8 ==> queuelist[p] == Level(entries, p))
      && (forall i :: 0 <= i < |entries| ==> entries[i].prio <= hiPrio)
    }

    ghost predicate Valid()
      reads this, queuelist
    {
      Sound() && qcnt <= qmax
    }

    /** aicwf_frame_queue_init */
    constructor (numPrio: nat, maxLen: u16)
      requires 1 <= numPrio <= 8
      ensures Valid() && fresh(queuelist) && entries == []
      ensures this.numPrio == numPrio && qmax == maxLen
    {
      this.numPrio, qmax := numPrio, maxLen;
      queuelist := new seq<Frame>[8](_ => []);
      hiPrio, qcnt := 0, 0;
      entries := [];
    }

    /** All levels above the lazily maintained `hiPrio` are empty. */
    lemma NothingAboveHiPrio()
      requires Valid()
      ensures forall p :: hiPrio < p < 8 ==> queuelist[p] == []
    {
      forall p | hiPrio < p < 8
        ensures queuelist[p] == []
      {
        LevelEmpty(entries, p);
      }
    }

    /** aicwf_is_framequeue_empty: adds up the levels up to `hiPrio`. */
    method IsEmpty() returns (empty: bool)
      requires Valid()
      ensures empty <==> entries == []
    {
      var len := 0;
      for prio := 0 to hiPrio + 1
        invariant len >= 0
        invariant len == 0 <==> forall p :: 0 <= p < prio ==> queuelist[p] == []
      {
        len := len + |queuelist[prio]|;
      }
      empty := len <= 0;
      if entries != [] {
        LevelEmpty(entries, entries[0].prio);
        assert queuelist[entries[0].prio] != [];
      }
    }

    /** aicwf_frame_queue_penq: append at a level below the level's capacity. */
    method Penq(prio: nat, frame: Frame) returns (ok: bool)
      requires Sound() && prio < numPrio
      modifies this`hiPrio, this`qcnt, this`entries, queuelist
      ensures Sound() && (ok <==> |Level(old(entries), prio)| < qmax)
      ensures entries == if ok then old(entries) + [Entry(prio, frame)] else old(entries)
      ensures hiPrio == if ok && old(hiPrio) < prio then prio else old(hiPrio)
      ensures !ok ==> queuelist[..] == old(queuelist[..])
    {
      hide Level;
      if |queuelist[prio]| >= qmax {
        return false;
      }
      ok := true;
      queuelist[prio] := queuelist[prio] + [frame];
      qcnt := qcnt + 1;
      if hiPrio < prio {
        hiPrio := prio;
      }
      LevelsAppend(entries, Entry(prio, frame));
      entries := entries + [Entry(prio, frame)];
    }

    /** aicwf_frame_queue_peek_tail: the lowest non-empty level, and the frame at its tail. */
    method PeekTail() returns (frame: Option<Frame>, prio: nat)
      requires Valid()
      ensures frame.None? <==> entries == []
      ensures entries != [] ==>
        prio == entries[Victim(entries)].prio && frame == Some(entries[Victim(entries)].frame)
    {
      if qcnt == 0 {
        return None, 0;
      }
      prio := 0;
      while prio < hiPrio && queuelist[prio] == []
        invariant prio <= hiPrio
        invariant forall p :: 0 <= p < prio ==> queuelist[p] == []
      {
        prio := prio + 1;
      }
      ghost var v := entries[Victim(entries)];
      VictimIsLast(entries);
      LevelTail(entries, Victim(entries), v.prio);
      LevelEmpty(entries, prio);
      assert queuelist[v.prio] != [];
      assert v.prio == prio;
      frame := Some(queuelist[prio][|queuelist[prio]| - 1]);
    }

    /** aicwf_skb_dequeue_tail: the newest frame of a level. */
    method DequeueTail(prio: nat) returns (frame: Option<Frame>)
      requires Sound() && prio < 8
      modifies this`qcnt, this`entries, queuelist
      ensures Sound()
      ensures var k := LastAt(old(entries), prio);
        if k < |old(entries)| then frame == Some(old(entries)[k].frame) && entries == Without(old(entries), k)
        else frame == None && entries == old(entries) && queuelist[..] == old(queuelist[..])
    {
      ghost var k := LastAt(entries, prio);
      LevelEmpty(entries, prio);
      var q := queuelist[prio];
      if q == [] {
        return None;
      }
      forall p: nat | p < 8
        ensures if p == prio then Level(entries, p) == Level(Without(entries, k), p) + [entries[k].frame]
                else Level(Without(entries, k), p) == Level(entries, p)
      {
        LevelTail(entries, k, p);
      }
      frame := Some(q[|q| - 1]);
      queuelist[prio] := q[..|q| - 1];
      qcnt := qcnt - 1;
      entries := Without(entries, k);
    }

    /** aicwf_frame_dequeue: `hiPrio` sinks to the highest non-empty level first. */
    method FrameDequeue() returns (frame: Option<Frame>)
      requires Valid()
      modifies this`hiPrio, this`qcnt, this`entries, queuelist
      ensures Valid()
      ensures old(entries) == [] ==> frame == None && entries == []
      ensures old(entries) != [] ==>
        exists k: nat :: IsNext(old(entries), k) && frame == Some(old(entries)[k].frame)
                    && entries == old(entries)[..k] + old(entries)[k + 1..]
    {
      hide Level, Next, Victim;
      if qcnt == 0 {
        return None;
      }
      while hiPrio > 0 && queuelist[hiPrio] == []
        invariant Valid() && entries == old(entries) && qcnt == old(qcnt)
        decreases hiPrio
      {
        LevelEmpty(entries, hiPrio);
        hiPrio := hiPrio - 1;
      }
      ghost var e := entries[Next(entries)];
      LevelEmpty(entries, hiPrio);
      assert queuelist[e.prio] != [] by { LevelNext(entries, e.prio); }
      assert e.prio == hiPrio;
      forall p: nat | p < 8
        ensures if p == e.prio then Level(entries, p) == [e.frame] + Level(Without(entries, Next(entries)), p)
                else Level(Without(entries, Next(entries)), p) == Level(entries, p)
      {
        LevelNext(entries, p);
      }
      var q := queuelist[hiPrio];
      frame := Some(q[0]);
      queuelist[hiPrio] := q[1..];
      qcnt := qcnt - 1;
      entries := Without(entries, Next(entries));
    }

    /** aicwf_frame_enq: append; at capacity either reject, or free the newest frame of the lowest
        occupied level, if that level is lower, and queue the newcomer at that level. */
    method FrameEnq(frame: Frame, prio: nat) returns (accepted: bool, ghost freed: seq<Frame>)
      requires Valid() && prio < numPrio
      modifies this`hiPrio, this`qcnt, this`entries, queuelist
      ensures Valid()
      ensures accepted <==>
        |old(entries)| < qmax || exists i :: 0 <= i < |old(entries)| && old(entries)[i].prio < prio
      ensures |old(entries)| < qmax ==> entries == old(entries) + [Entry(prio, frame)] && freed == []
      ensures |old(entries)| >= qmax && accepted ==>
        exists k: nat :: IsVictim(old(entries), k) && old(entries)[k].prio < prio && freed == [old(entries)[k].frame]
                    && Supplants(old(entries), k, frame, entries)
      ensures !accepted ==>
        entries == old(entries) && freed == [] && queuelist[..] == old(queuelist[..]) && hiPrio == old(hiPrio)
      ensures var e := Apply(old(entries), qmax, Enqueue(frame, prio));
        entries == e.entries && freed == e.freed && (accepted <==> e.taken == [frame])
    {
      EnqueueIff(entries, qmax, frame, prio);
      freed := [];
      LevelLength(entries, prio);
      if |queuelist[prio]| < qmax && qcnt < qmax {
        accepted := Penq(prio, frame);
        return;
      }
      var prioModified := prio;
      if |queuelist[prio]| < qmax && qcnt >= qmax {
        var tail;
        tail, prioModified := PeekTail();
        if prioModified > prio {
          return false, freed;
        }
      }
      if prioModified == prio {
        return false, freed;
      }
      VictimIsLast(entries);
      var gone := DequeueTail(prioModified);
      freed := [gone.value];
      LevelLength(entries, prioModified);
      accepted := Penq(prioModified, frame);
    }

    /** aicwf_frame_queue_flush: unlink every frame of every level; `hiPrio` is left alone. */
    method FrameFlush() returns (freed: seq<Frame>)
      requires Valid()
      modifies this`qcnt, this`entries, queuelist
      ensures Valid() && entries == []
      ensures forall f :: Count(freed, f) == Count(Frames(old(entries)), f)
    {
      freed := FlushLevels();
      ghost var all := entries;
      forall f
        ensures Count(freed, f) == Count(Frames(all), f)
      {
        LevelsHoldAll(all, numPrio, f);
      }
      entries := [];
    }

    method FlushLevels() returns (freed: seq<Frame>)
      requires Valid()
      modifies this`qcnt, queuelist
      ensures freed == LevelsBelow(entries, numPrio)
      ensures qcnt == 0 && forall p :: 0 <= p < 8 ==> queuelist[p] == []
    {
      freed := [];
      for prio := 0 to numPrio
        invariant forall p :: 0 <= p < prio ==> queuelist[p] == []
        invariant forall p :: prio <= p < 8 ==> queuelist[p] == Level(entries, p)
        invariant freed == LevelsBelow(entries, prio) && qcnt == |entries| - |freed|
      {
        LevelsAddUp(entries, prio + 1);
        var q := FlushLevel(prio);
        freed := freed + q;
      }
      LevelsAddUp(entries, numPrio);
      forall p | numPrio <= p < 8
        ensures queuelist[p] == []
      {
        LevelEmpty(entries, p);
      }
    }

    method FlushLevel(prio: nat) returns (freed: seq<Frame>)
      requires prio < queuelist.Length && |queuelist[prio]| <= qcnt
      modifies this`qcnt, queuelist
      ensures freed == old(queuelist[prio]) && qcnt == old(qcnt) - |freed|
      ensures queuelist[..] == old(queuelist[..])[prio := []]
    {
      freed := [];
      while queuelist[prio] != []
        invariant freed + queuelist[prio] == old(queuelist[prio]) && qcnt == old(qcnt) - |freed|
        invariant forall p :: 0 <= p < queuelist.Length && p != prio ==> queuelist[p] == old(queuelist[p])
        decreases |queuelist[prio]|
      {
        var q := queuelist[prio];
        FirstMoves(freed, q);
        freed := freed + [q[0]];
        queuelist[prio] := q[1..];
        qcnt := qcnt - 1;
      }
    }
  }

  lemma FirstMoves(a: seq<Frame>, q: seq<Frame>)
    requires q != []
    ensures a + [q[0]] + q[1..] == a + q
  {
  }

  /** The frames at the first `n` levels, level by level. */
  function LevelsBelow(es: seq<Entry>, n: nat): seq<Frame> {
    if n == 0 then [] else LevelsBelow(es, n - 1) + Level(es, n - 1)
  }

  /** The frame count is the sum of the level lengths ... */
  lemma {:induction false} LevelsAddUp(es: seq<Entry>, n: nat)
    ensures |LevelsBelow(es, n)| <= |es|
    ensures (forall i :: 0 <= i < |es| ==> es[i].prio < n) ==> |LevelsBelow(es, n)| == |es|
    decreases |es|
  {
    LevelsStep(es, n);
    if es != [] {
      LevelsAddUp(es[..|es| - 1], n);
    }
  }

  lemma {:induction false} LevelsStep(es: seq<Entry>, n: nat)
    ensures es == [] ==> LevelsBelow(es, n) == []
    ensures es != [] ==>
      |LevelsBelow(es, n)| == |LevelsBelow(es[..|es| - 1], n)| + (if es[|es| - 1].prio < n then 1 else 0)
  {
    if n > 0 {
      LevelsStep(es, n - 1);
    }
  }

  /** ... and the levels together hold every queued frame as often as it was queued. */
  lemma {:induction false} LevelsHoldAll(es: seq<Entry>, n: nat, f: Frame)
    requires forall i :: 0 <= i < |es| ==> es[i].prio < n
    ensures Count(LevelsBelow(es, n), f) == Count(Frames(es), f)
    decreases |es|
  {
    if es == [] {
      LevelsStep(es, n);
      assert Frames(es) == [];
    } else {
      var front, last := es[..|es| - 1], es[|es| - 1];
      LevelsHoldAll(front, n, f);
      LevelsCount(front, last, n, f);
      assert es == front + [last];
      FramesAppend(front, last, f);
    }
  }

  lemma LevelCount(es: seq<Entry>, e: Entry, p: nat, f: Frame)
    ensures Count(Level(es + [e], p), f) == Count(Level(es, p), f) + (if e.prio == p then Count([e.frame], f) else 0)
  {
    assert (es + [e])[..|es|] == es;
    CountConcat(Level(es, p), [e.frame], f);
    assert Level(es, p) + [] == Level(es, p);
  }

  lemma {:induction false} LevelsCount(es: seq<Entry>, e: Entry, n: nat, f: Frame)
    ensures Count(LevelsBelow(es + [e], n), f)
            == Count(LevelsBelow(es, n), f) + (if e.prio < n then Count([e.frame], f) else 0)
  {
    hide Count, Level;
    if n > 0 {
      LevelsCount(es, e, n - 1, f);
      LevelCount(es, e, n - 1, f);
      CountConcat(LevelsBelow(es + [e], n - 1), Level(es + [e], n - 1), f);
      CountConcat(LevelsBelow(es, n - 1), Level(es, n - 1), f);
    }
  }
}
