/** Reassembly of USB packets that are longer than one bulk transfer. */
module Reassembly {
  import opened RxHeader
  import opened Words

  const CFG_CMD_RSP := 0x11
  const CFG_DATA_CFM := 0x12

  /** The two receive paths: the bulk endpoint, and the message endpoint, which takes no data. */
  datatype Path = Bulk | Message

  /** One completed transfer: the bytes received, and what the buffer holds behind them. */
  datatype Piece = Piece(bytes: seq<u8>, slack: seq<u8>)

  predicate ValidPiece(p: Piece, size: nat) {
    1 <= |p.bytes| <= size && 3 <= |p.bytes + p.slack|
  }

  // ---------------------------------------------------------------- headers

  /** The number of bytes a packet with this header has; None for a header that is dropped. */
  function Declared(d: seq<u8>, path: Path): Option<nat>
    requires |d| >= 3
  {
    if And(d[2], CFG) != CFG then (if path == Bulk then Some(PktLen(d) + HW_HEADER) else None)
    else if d[2] == CFG_CMD_RSP then Some(Align(PktLen(d) + 4, 4))
    else if d[2] == CFG_DATA_CFM && PktLen(d) == 8 then Some(12)
    else None
  }

  /** Only data and command responses may span several transfers. */
  predicate Splittable(d: seq<u8>, path: Path)
    requires |d| >= 3
  {
    And(d[2], CFG) != CFG || d[2] == CFG_CMD_RSP
  }

  function Frags(total: nat, size: nat): nat
    requires 0 < size < 0x8000_0000 && total < 0x8000_0000
  {
    Align(total, size) / size
  }

  /** The formats of packets, in plain numbers: n is the length announced in the first two bytes.
      A data packet has bit 4 of its type clear and n + 60 bytes; a command response has type 0x11 and
      4 + n bytes, rounded up to a multiple of four; a confirmation has type 0x12, announces 8 and has
      12 bytes. Data does not come by the message endpoint. */
  ghost predicate WellFormed(f: seq<u8>, path: Path) {
    && |f| >= 3
    && var n := f[0] as int + 256 * f[1] as int;
    || (path.Bulk? && f[2] / 16 % 2 == 0 && |f| == n + 60)
    || (f[2] == 0x11 && |f| == (4 + n + 3) / 4 * 4)
    || (f[2] == 0x12 && n == 8 && |f| == 12)
  }

  /** The length that the driver reads from a header, in the same numbers. */
  lemma DeclaredIs(d: seq<u8>, path: Path)
    requires |d| >= 3
    ensures var n := d[0] as int + 256 * d[1] as int;
      Declared(d, path)
      == if d[2] / 16 % 2 == 0 then (if path.Bulk? then Some(n + 60) else None)
         else if d[2] == 0x11 then Some((4 + n + 3) / 4 * 4)
         else if d[2] == 0x12 && n == 8 then Some(12)
         else None
  {
    CfgBit(d[2]);
    AlignPow2(PktLen(d) + 4, 4, 2);
  }

  /** The length that the driver reads from a header is that of the format. */
  lemma WellFormedIff(f: seq<u8>, path: Path)
    requires |f| >= 3
    ensures WellFormed(f, path) <==> Declared(f, path) == Some(|f|)
  {
    DeclaredIs(f, path);
  }

  lemma DeclaredBound(d: seq<u8>, path: Path)
    requires |d| >= 3
    ensures Declared(d, path).Some? ==> Declared(d, path).value < 0x2_0000
  {
    AlignPow2(PktLen(d) + 4, 4, 2);
  }

  // ---------------------------------------------------------------- the state machine

  datatype State =
    | Idle
    | Active(buf: seq<u8>, totalLen: nat, curLen: nat, totalFrags: nat, curFrags: nat)

  datatype Outcome = Outcome(state: State, out: seq<seq<u8>>)

  /** The check of a piece that does not continue a packet; `alloc` says whether a reassembly
      buffer can be had. */
  function Check(p: Piece, alloc: bool, size: nat, path: Path): Outcome
    requires ValidPiece(p, size) && size < 0x8000_0000
  {
    var d := p.bytes + p.slack;
    match Declared(d, path)
    case None => Outcome(Idle, [])
    case Some(total) =>
      DeclaredBound(d, path);
      if Splittable(d, path) && total > size && |p.bytes| == size then
        Outcome(if alloc then Active(p.bytes, total, |p.bytes|, Frags(total, size), 1) else Idle, [])
      else if total != |p.bytes| then Outcome(Idle, [])
      else Outcome(Idle, [p.bytes])
  }

  function Step(s: State, p: Piece, alloc: bool, size: nat, path: Path): Outcome
    requires ValidPiece(p, size) && size < 0x8000_0000
  {
    if s.Idle? then Check(p, alloc, size, path)
    else if s.curFrags + 1 == s.totalFrags then
      if s.curLen + |p.bytes| == s.totalLen then Outcome(Idle, [s.buf + p.bytes])
      else Check(p, alloc, size, path)
    else if |p.bytes| == size then
      Outcome(s.(buf := s.buf + p.bytes, curLen := s.curLen + |p.bytes|, curFrags := s.curFrags + 1), [])
    else Check(p, alloc, size, path)
  }

  function Run(s: State, ps: seq<Piece>, alloc: seq<bool>, size: nat, path: Path): Outcome
    requires |alloc| == |ps| && size < 0x8000_0000
    requires forall i :: 0 <= i < |ps| ==> ValidPiece(ps[i], size)
    decreases |ps|
  {
    if ps == [] then Outcome(s, [])
    else
      var first := Step(s, ps[0], alloc[0], size, path);
      var rest := Run(first.state, ps[1..], alloc[1..], size, path);
      Outcome(rest.state, first.out + rest.out)
  }

  // ---------------------------------------------------------------- safety for every input

  lemma FragsRoundUp(total: nat)
    requires total < 0x2_0000
    ensures Frags(total, 2048) == (total + 2047) / 2048
  {
    assert Pow2(11) == 2048;
    AlignPow2(total, 2048, 11);
  }

  /** A packet in the making: whole pieces only, fewer than announced, with the header that
      announced it in front, and room for what is still to come. */
  ghost predicate Inv(s: State, path: Path) {
    s.Active? ==>
      && s.curLen == 2048 * s.curFrags == |s.buf|
      && 1 <= s.curFrags < s.totalFrags
      && s.totalFrags == (s.totalLen + 2047) / 2048 && s.totalLen < 0x2_0000
      && Declared(s.buf, path) == Some(s.totalLen)
  }

  lemma DeclaredPrefix(a: seq<u8>, b: seq<u8>, path: Path)
    requires |a| >= 3 && |b| >= 3 && a[..3] == b[..3]
    ensures Declared(a, path) == Declared(b, path)
  {
    assert a[..3][0] == a[0] && a[..3][1] == a[1] && a[..3][2] == a[2];
    assert b[..3][0] == b[0] && b[..3][1] == b[1] && b[..3][2] == b[2];
  }

  lemma CheckSafe(p: Piece, alloc: bool, path: Path)
    requires ValidPiece(p, 2048)
    ensures Inv(Check(p, alloc, 2048, path).state, path)
    ensures forall f :: f in Check(p, alloc, 2048, path).out ==> WellFormed(f, path)
  {
    var d := p.bytes + p.slack;
    DeclaredBound(d, path);
    if Declared(d, path).Some? {
      FragsRoundUp(Declared(d, path).value);
      SmallestPacket(d, path);
      if |p.bytes| >= 3 {
        DeclaredPrefix(p.bytes, d, path);
        WellFormedIff(p.bytes, path);
      }
    }
  }

  lemma SmallestPacket(d: seq<u8>, path: Path)
    requires |d| >= 3 && Declared(d, path).Some?
    ensures Declared(d, path).value >= 4
  {
    AlignPow2(PktLen(d) + 4, 4, 2);
  }

  /** Every piece, well formed or not, keeps the invariant, and every frame handed on has the
      length its own header declares. */
  lemma StepSafe(s: State, p: Piece, alloc: bool, path: Path)
    requires Inv(s, path) && ValidPiece(p, 2048)
    ensures Inv(Step(s, p, alloc, 2048, path).state, path)
    ensures forall f :: f in Step(s, p, alloc, 2048, path).out ==> WellFormed(f, path)
  {
    CheckSafe(p, alloc, path);
    if s.Active? {
      DeclaredPrefix(s.buf + p.bytes, s.buf, path);
      WellFormedIff(s.buf + p.bytes, path);
    }
  }

  lemma {:induction false} RunSafe(s: State, ps: seq<Piece>, alloc: seq<bool>, path: Path)
    requires |alloc| == |ps| && Inv(s, path)
    requires forall i :: 0 <= i < |ps| ==> ValidPiece(ps[i], 2048)
    ensures Inv(Run(s, ps, alloc, 2048, path).state, path)
    ensures forall f :: f in Run(s, ps, alloc, 2048, path).out ==> WellFormed(f, path)
    decreases |ps|
  {
    if ps != [] {
      StepSafe(s, ps[0], alloc[0], path);
      RunSafe(Step(s, ps[0], alloc[0], 2048, path).state, ps[1..], alloc[1..], path);
    }
  }

  // ---------------------------------------------------------------- cutting and reassembling

  /** `ps` carries the packet in pieces of `size` bytes and a remainder. */
  ghost predicate IsCut(ps: seq<Piece>, packet: seq<u8>, size: nat)
    requires 0 < size
    decreases |packet|
  {
    if |packet| <= size then |ps| == 1 && ps[0].bytes == packet
    else ps != [] && ps[0].bytes == packet[..size] && IsCut(ps[1..], packet[size..], size)
  }

  /** The number of pieces. */
  function Pieces(len: nat, size: nat): (n: nat)
    requires 0 < size
    ensures n >= 1 && (n == 1 <==> len <= size)
  {
    if len <= size then 1 else 1 + Pieces(len - size, size)
  }

  lemma {:induction false} PiecesRoundUp(len: nat, size: nat)
    requires 0 < size && 0 < len
    ensures Pieces(len, size) == (len + size - 1) / size
  {
    if len <= size {
      DivModUnique(len + size - 1, size, 1, len - 1);
    } else {
      PiecesRoundUp(len - size, size);
      ModAdd(len - 1, size, 1);
    }
  }

  ghost predicate AllValid(ps: seq<Piece>, size: nat) {
    forall i :: 0 <= i < |ps| ==> ValidPiece(ps[i], size)
  }

  function Yes(n: nat): seq<bool> {
    seq(n, _ => true)
  }

  function Feed(s: State, ps: seq<Piece>, size: nat, path: Path): Outcome
    requires AllValid(ps, size) && size < 0x8000_0000
  {
    Run(s, ps, Yes(|ps|), size, path)
  }

  lemma FeedStep(s: State, ps: seq<Piece>, size: nat, path: Path)
    requires AllValid(ps, size) && size < 0x8000_0000 && ps != []
    ensures var first := Step(s, ps[0], true, size, path);
      var rest := Feed(first.state, ps[1..], size, path);
      Feed(s, ps, size, path) == Outcome(rest.state, first.out + rest.out)
  {
    assert Yes(|ps|)[1..] == Yes(|ps[1..]|);
  }

  /** With the right number of fragments announced, the rest of a packet completes it. */
  lemma {:induction false} FeedRest(s: State, rest: seq<u8>, ps: seq<Piece>, size: nat, path: Path)
    requires 0 < size < 0x8000_0000 && AllValid(ps, size) && IsCut(ps, rest, size)
    requires s.Active? && s.curLen == |s.buf| && s.curLen + |rest| == s.totalLen
    requires s.curFrags + Pieces(|rest|, size) == s.totalFrags
    ensures Feed(s, ps, size, path) == Outcome(Idle, [s.buf + rest])
    decreases |rest|
  {
    FeedStep(s, ps, size, path);
    if |rest| > size {
      var s1 := Step(s, ps[0], true, size, path).state;
      FeedRest(s1, rest[size..], ps[1..], size, path);
      assert s1.buf + rest[size..] == s.buf + (rest[..size] + rest[size..]);
      assert rest[..size] + rest[size..] == rest;
    } else {
      assert ps[1..] == [];
    }
  }

  function Buffered(s: State): nat {
    if s.Idle? then 0 else |s.buf|
  }

  function Bytes(fs: seq<seq<u8>>): nat {
    if fs == [] then 0 else |fs[0]| + Bytes(fs[1..])
  }

  function Fed(ps: seq<Piece>): nat {
    if ps == [] then 0 else |ps[0].bytes| + Fed(ps[1..])
  }

  lemma {:induction false} BytesConcat(a: seq<seq<u8>>, b: seq<seq<u8>>)
    ensures Bytes(a + b) == Bytes(a) + Bytes(b)
  {
    if a == [] {
      assert a + b == b;
    } else {
      assert (a + b)[1..] == a[1..] + b;
      BytesConcat(a[1..], b);
    }
  }

  lemma {:induction false} FedByCut(ps: seq<Piece>, packet: seq<u8>, size: nat)
    requires 0 < size && IsCut(ps, packet, size)
    ensures Fed(ps) == |packet|
    decreases |packet|
  {
    if |packet| > size {
      FedByCut(ps[1..], packet[size..], size);
    } else {
      assert ps[1..] == [];
    }
  }

  /** No byte is handed on that was not received. */
  lemma StepInventsNothing(s: State, p: Piece, size: nat, path: Path)
    requires ValidPiece(p, size) && size < 0x8000_0000
    ensures var first := Step(s, p, true, size, path);
      Bytes(first.out) + Buffered(first.state) <= Buffered(s) + |p.bytes|
  {
    var first := Step(s, p, true, size, path);
    if first.out != [] {
      assert first.out[1..] == [];
    }
  }

  lemma {:induction false} NothingInvented(s: State, ps: seq<Piece>, size: nat, path: Path)
    requires AllValid(ps, size) && size < 0x8000_0000
    ensures Bytes(Feed(s, ps, size, path).out) <= Buffered(s) + Fed(ps)
    decreases |ps|
  {
    if ps != [] {
      FeedStep(s, ps, size, path);
      var first := Step(s, ps[0], true, size, path);
      NothingInvented(first.state, ps[1..], size, path);
      BytesConcat(first.out, Feed(first.state, ps[1..], size, path).out);
      StepInventsNothing(s, ps[0], size, path);
    }
  }

  /** With too few fragments announced, less than the packet comes out. */
  lemma {:induction false} FeedTooFew(s: State, rest: seq<u8>, ps: seq<Piece>, size: nat, path: Path)
    requires 0 < size < 0x8000_0000 && AllValid(ps, size) && IsCut(ps, rest, size)
    requires s.Active? && s.curLen == |s.buf| >= 1 && s.curLen + |rest| == s.totalLen
    requires s.totalFrags < s.curFrags + Pieces(|rest|, size)
    ensures Bytes(Feed(s, ps, size, path).out) < s.totalLen
    decreases |rest|
  {
    FeedStep(s, ps, size, path);
    var first := Step(s, ps[0], true, size, path);
    FedByCut(ps, rest, size);
    if s.curFrags + 1 != s.totalFrags && |ps[0].bytes| == size {
      if |rest| > size {
        FeedTooFew(first.state, rest[size..], ps[1..], size, path);
        assert first.out + Feed(first.state, ps[1..], size, path).out == Feed(first.state, ps[1..], size, path).out;
      } else {
        assert ps[1..] == [];
      }
    } else {
      assert first == Step(Idle, ps[0], true, size, path);
      FeedStep(Idle, ps, size, path);
      NothingInvented(Idle, ps, size, path);
    }
  }

  lemma DivMono(a: nat, b: nat, d: nat)
    requires a <= b && 0 < d
    ensures a / d <= b / d
  {
    var qa, qb := a / d, b / d;
    assert d * (qa - qb) == d * qa - d * qb;
    if qa > qb {
      MulAtLeast(d, qa - qb);
    }
  }

  /** ALIGN never announces too many fragments. */
  lemma FragsAtMostPieces(total: nat, size: nat)
    requires 0 < size < 0x8000_0000 && 0 < total < 0x2_0000
    ensures Frags(total, size) <= Pieces(total, size)
  {
    AndBound(total + size - 1, Not32(size - 1));
    DivMono(Align(total, size), total + size - 1, size);
    PiecesRoundUp(total, size);
  }

  /** The first piece starts the reassembly. */
  lemma FirstPiece(packet: seq<u8>, ps: seq<Piece>, size: nat, path: Path)
    requires 3 <= size < 0x8000_0000 && AllValid(ps, size) && IsCut(ps, packet, size)
    requires |packet| > size && WellFormed(packet, path) && Splittable(packet, path)
    ensures |packet| < 0x2_0000
    ensures Feed(Idle, ps, size, path)
            == Feed(Active(packet[..size], |packet|, size, Frags(|packet|, size), 1), ps[1..], size, path)
  {
    CheckFirst(packet, ps[0], size, path);
    FeedQuiet(Idle, ps, size, path);
  }

  lemma CheckFirst(packet: seq<u8>, p: Piece, size: nat, path: Path)
    requires 3 <= size < 0x8000_0000 && ValidPiece(p, size) && |packet| > size && p.bytes == packet[..size]
    requires WellFormed(packet, path) && Splittable(packet, path)
    ensures |packet| < 0x2_0000
    ensures Check(p, true, size, path) == Outcome(Active(packet[..size], |packet|, size, Frags(|packet|, size), 1), [])
  {
    WellFormedIff(packet, path);
    DeclaredBound(packet, path);
    var d := p.bytes + p.slack;
    assert d[0] == packet[0] && d[1] == packet[1] && d[2] == packet[2];
    DeclaredPrefix(d, packet, path);
  }

  lemma FeedQuiet(s: State, ps: seq<Piece>, size: nat, path: Path)
    requires AllValid(ps, size) && size < 0x8000_0000 && ps != [] && Step(s, ps[0], true, size, path).out == []
    ensures Feed(s, ps, size, path) == Feed(Step(s, ps[0], true, size, path).state, ps[1..], size, path)
  {
    FeedStep(s, ps, size, path);
    var rest := Feed(Step(s, ps[0], true, size, path).state, ps[1..], size, path);
    assert [] + rest.out == rest.out;
  }

  /** Cutting an oversize packet and feeding the pieces to an idle reassembler hands on exactly the
      packet, once, and leaves it idle, if and only if ALIGN announces the number of pieces. */
  lemma RoundTripIff(packet: seq<u8>, ps: seq<Piece>, size: nat, path: Path)
    requires 3 <= size < 0x8000_0000 && AllValid(ps, size) && IsCut(ps, packet, size)
    requires |packet| > size && WellFormed(packet, path) && Splittable(packet, path)
    ensures |packet| < 0x2_0000
    ensures Feed(Idle, ps, size, path) == Outcome(Idle, [packet])
            <==> Frags(|packet|, size) == Pieces(|packet|, size)
  {
    hide Run, ValidPiece, WellFormed, Yes;
    FirstPiece(packet, ps, size, path);
    var s := Active(packet[..size], |packet|, size, Frags(|packet|, size), 1);
    FragsAtMostPieces(|packet|, size);
    assert packet[..size] + packet[size..] == packet;
    if Frags(|packet|, size) == Pieces(|packet|, size) {
      FeedRest(s, packet[size..], ps[1..], size, path);
    } else {
      FeedTooFew(s, packet[size..], ps[1..], size, path);
      assert [packet][1..] == [];
      assert Bytes([packet]) == |packet|;
    }
  }

  /** At 2048 bytes the round trip always succeeds, for packets of any length. */
  lemma RoundTrip(packet: seq<u8>, ps: seq<Piece>, path: Path)
    requires AllValid(ps, 2048) && IsCut(ps, packet, 2048) && WellFormed(packet, path)
    ensures Feed(Idle, ps, 2048, path) == Outcome(Idle, [packet])
  {
    WellFormedIff(packet, path);
    DeclaredBound(packet, path);
    if |packet| > 2048 {
      assert Splittable(packet, path);
      RoundTripIff(packet, ps, 2048, path);
      FragsRoundUp(|packet|);
      PiecesRoundUp(|packet|, 2048);
    } else {
      FeedStep(Idle, ps, 2048, path);
      DeclaredPrefix(ps[0].bytes + ps[0].slack, packet, path);
      assert ps[1..] == [];
    }
  }

  /** A piece that continues nothing is handed on when it is a packet of the formats, and starts a
      reassembly when it is a whole transfer and the packet that its header announces is longer: a
      data packet on the bulk endpoint, or a command response. Any other piece is dropped. */
  lemma IdlePieceIff(p: Piece, alloc: bool, size: nat, path: Path)
    requires size < 0x8000_0000 && ValidPiece(p, size) && |p.bytes| >= 3
    ensures Step(Idle, p, alloc, size, path).out == if WellFormed(p.bytes, path) then [p.bytes] else []
    ensures var n := p.bytes[0] as int + 256 * p.bytes[1] as int;
      Step(Idle, p, alloc, size, path).state.Active? <==>
        && alloc && |p.bytes| == size
        && if p.bytes[2] / 16 % 2 == 0 then path.Bulk? && n + 60 > size
           else p.bytes[2] == 0x11 && (4 + n + 3) / 4 * 4 > size
  {
    DeclaredPrefix(p.bytes, p.bytes + p.slack, path);
    DeclaredBound(p.bytes, path);
    WellFormedIff(p.bytes, path);
    DeclaredIs(p.bytes, path);
  }

  /** A stream of packets, each cut into its pieces. */
  ghost predicate IsStream(ps: seq<Piece>, packets: seq<seq<u8>>, cuts: seq<seq<Piece>>)
    decreases |packets|
  {
    if packets == [] then ps == [] && cuts == []
    else
      && cuts != [] && IsCut(cuts[0], packets[0], 2048)
      && |cuts[0]| <= |ps| && ps[..|cuts[0]|] == cuts[0] && IsStream(ps[|cuts[0]|..], packets[1..], cuts[1..])
  }

  lemma {:induction false} FeedConcat(s: State, a: seq<Piece>, b: seq<Piece>, size: nat, path: Path)
    requires AllValid(a, size) && AllValid(b, size) && size < 0x8000_0000
    ensures AllValid(a + b, size)
    ensures Feed(s, a + b, size, path) == Then(Feed(s, a, size, path), b, size, path)
    decreases |a|
  {
    hide Step, ValidPiece;
    if a == [] {
      assert a + b == b;
    } else {
      var first := Step(s, a[0], true, size, path);
      FeedConcat(first.state, a[1..], b, size, path);
      assert (a + b)[1..] == a[1..] + b && (a + b)[0] == a[0];
      FeedStep(s, a + b, size, path);
      FeedStep(s, a, size, path);
      ThenAfter(first.out, Feed(first.state, a[1..], size, path), b, size, path);
    }
  }

  /** The outcome of a first feed, continued with more pieces. */
  function Then(first: Outcome, b: seq<Piece>, size: nat, path: Path): Outcome
    requires AllValid(b, size) && size < 0x8000_0000
  {
    var rest := Feed(first.state, b, size, path);
    Outcome(rest.state, first.out + rest.out)
  }

  lemma ThenAfter(out: seq<seq<u8>>, o: Outcome, b: seq<Piece>, size: nat, path: Path)
    requires AllValid(b, size) && size < 0x8000_0000
    ensures var t := Then(o, b, size, path);
      Then(Outcome(o.state, out + o.out), b, size, path) == Outcome(t.state, out + t.out)
  {
  }

  /** Any stream of well-formed packets comes out as it went in. */
  lemma {:induction false} StreamRoundTrip(ps: seq<Piece>, packets: seq<seq<u8>>, cuts: seq<seq<Piece>>, path: Path)
    requires AllValid(ps, 2048) && IsStream(ps, packets, cuts)
    requires forall i :: 0 <= i < |packets| ==> WellFormed(packets[i], path)
    ensures Feed(Idle, ps, 2048, path) == Outcome(Idle, packets)
    decreases |packets|
  {
    hide Step, ValidPiece, WellFormed, Yes;
    if packets != [] {
      var n := |cuts[0]|;
      assert ps == cuts[0] + ps[n..];
      assert AllValid(cuts[0], 2048) by {
        forall i | 0 <= i < n ensures ValidPiece(cuts[0][i], 2048) {
          assert cuts[0][i] == ps[i];
        }
      }
      RoundTrip(packets[0], cuts[0], path);
      StreamRoundTrip(ps[n..], packets[1..], cuts[1..], path);
      FeedConcat(Idle, cuts[0], ps[n..], 2048, path);
      assert [packets[0]] + packets[1..] == packets;
    }
  }

  /** At the 12288-byte setting, which is not a power of two, ALIGN announces one fragment for a
      packet of 12289 bytes, and the packet is lost. */
  lemma AmsduSizeLosesPacket(packet: seq<u8>, ps: seq<Piece>, path: Path)
    requires |packet| == 12289 && WellFormed(packet, path) && Splittable(packet, path)
    requires AllValid(ps, 12288) && IsCut(ps, packet, 12288)
    ensures Feed(Idle, ps, 12288, path) != Outcome(Idle, [packet])
  {
    AmsduFrags();
    assert Pieces(12289, 12288) == 2;
    RoundTripIff(packet, ps, 12288, path);
  }

  lemma AmsduFrags()
    ensures Frags(12289, 12288) == 1
  {
    HalveTwelve();
    assert Align(12289, 12288) == 16384;
  }

  lemma HalveTwelve()
    ensures And(24576, 4294955008) == 16384
  {
    assert And(6, 1048573) == 4;
    AndEven(12, 2097146);
    AndEven(24, 4194292);
    AndEven(48, 8388584);
    AndEven(96, 16777168);
    AndEven(192, 33554336);
    AndEven(384, 67108672);
    AndEven(768, 134217344);
    AndEven(1536, 268434688);
    AndEven(3072, 536869376);
    AndEven(6144, 1073738752);
    AndEven(12288, 2147477504);
    AndEven(24576, 4294955008);
  }

  // ---------------------------------------------------------------- the receive handler

  class Reassembler {
    const size: nat
    const path: Path
    var skb: Option<seq<u8>>
    var totalLen: nat
    var curLen: nat
    var totalFrags: nat
    var curFrags: nat

    ghost function State(): State
      reads this
    {
      if skb.None? then Idle else Active(skb.value, totalLen, curLen, totalFrags, curFrags)
    }

    constructor (size: nat, path: Path)
      ensures this.size == size && this.path == path && State() == Idle
    {
      this.size, this.path := size, path;
      skb, totalLen, curLen, totalFrags, curFrags := None, 0, 0, 0, 0;
    }

    method Reset()
      modifies this
      ensures State() == Idle
    {
      skb, totalLen, curLen, totalFrags, curFrags := None, 0, 0, 0, 0;
    }

    /** The total length by the packet type, and whether the packet may span several transfers. */
    method TotalLen(data: seq<u8>) returns (total: Option<nat>, splittable: bool)
      requires |data| >= 3
      ensures total == Declared(data, path)
      ensures var n := data[0] as int + 256 * data[1] as int;
        total == if data[2] / 16 % 2 == 0 then (if path.Bulk? then Some(n + 60) else None)
                 else if data[2] == 0x11 then Some((4 + n + 3) / 4 * 4)
                 else if data[2] == 0x12 && n == 8 then Some(12)
                 else None
      ensures total.Some? ==> splittable == Splittable(data, path) && total.value < 0x2_0000
    {
      DeclaredBound(data, path);
      DeclaredIs(data, path);
      var kind, pktLen := data[2], PktLen(data);
      if And(kind, CFG) != CFG {
        return if path == Message then None else Some(pktLen + HW_HEADER), true;
      } else if kind == CFG_CMD_RSP {
        return Some(Align(pktLen + 4, 4)), true;
      } else if kind == CFG_DATA_CFM && pktLen == 8 {
        return Some(12), false;
      }
      return None, false;
    }

    /** The packet check of aicwf_usb_rx_complete and aicwf_usb_msg_rx_complete. */
    method PktCheck(p: Piece, alloc: bool) returns (frame: Option<seq<u8>>)
      requires ValidPiece(p, size) && size < 0x8000_0000 && skb.None?
      modifies this
      ensures var r := Check(p, alloc, size, path);
        State() == r.state && r.out == (if frame.None? then [] else [frame.value])
    {
      frame := None;
      var total, splittable := TotalLen(p.bytes + p.slack);
      if total.Some? {
        if splittable && total.value > size && |p.bytes| == size {
          if alloc {
            skb := Some(p.bytes);
            totalLen, curLen := total.value, |p.bytes|;
            totalFrags, curFrags := Frags(total.value, size), 1;
          }
        } else if total.value == |p.bytes| {
          frame := Some(p.bytes);
        }
      }
    }

    /** One completed transfer: the frame it makes available for the receive queue, if any. */
    method RxComplete(p: Piece, alloc: bool) returns (frame: Option<seq<u8>>)
      requires ValidPiece(p, size) && size < 0x8000_0000
      modifies this
      ensures var r := Step(old(State()), p, alloc, size, path);
        State() == r.state && r.out == (if frame.None? then [] else [frame.value])
      ensures old(skb.None?) && |p.bytes| >= 3 ==>
        frame == if WellFormed(p.bytes, path) then Some(p.bytes) else None
    {
      if |p.bytes| >= 3 {
        IdlePieceIff(p, alloc, size, path);
      }
      if skb.Some? {
        var valid, done := false, false;
        if curFrags + 1 == totalFrags {
          if curLen + |p.bytes| == totalLen {
            valid, done := true, true;
          }
        } else if |p.bytes| == size {
          valid := true;
        }
        if valid {
          skb := Some(skb.value + p.bytes);
          curLen := curLen + |p.bytes|;
          curFrags := curFrags + 1;
          frame := None;
          if done {
            frame := skb;
            Reset();
          }
          return;
        }
        Reset();
      }
      frame := PktCheck(p, alloc);
    }
  }
}
