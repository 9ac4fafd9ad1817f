/** The buffer a packet is reassembled in: it is allocated with the length the packet's header
    declares, and pieces are copied behind each other without a check. */
module ReassemblyBuffer {
  import opened Reassembly
  import opened Sequences
  import opened Words

  ghost predicate Fits(s: State) {
    s.Active? ==> |s.buf| <= s.totalLen
  }

  /** No piece of the run is copied beyond the end of its buffer. */
  ghost predicate RunFits(s: State, ps: seq<Piece>, alloc: seq<bool>, size: nat, path: Path)
    requires |alloc| == |ps| && size < 0x8000_0000 && AllValid(ps, size)
    decreases |ps|
  {
    Fits(s) && (ps == [] || RunFits(Step(s, ps[0], alloc[0], size, path).state, ps[1..], alloc[1..], size, path))
  }

  /** Every packet that needs more than one piece is announced with at least two. */
  ghost predicate EnoughFrags(size: nat, path: Path)
    requires 0 < size < 0x8000_0000
  {
    forall d: seq<u8> | |d| >= 3 && Oversize(d, size, path) :: AnnouncedFrags(d, size, path) >= 2
  }

  predicate Oversize(d: seq<u8>, size: nat, path: Path)
    requires |d| >= 3
  {
    Splittable(d, path) && Declared(d, path).Some? && Declared(d, path).value > size
  }

  function AnnouncedFrags(d: seq<u8>, size: nat, path: Path): nat
    requires 0 < size < 0x8000_0000 && |d| >= 3 && Oversize(d, size, path)
  {
    DeclaredBound(d, path);
    Frags(Declared(d, path).value, size)
  }

  // ---------------------------------------------------------------- enough fragments, no overrun

  /** What is still announced is at most what the rest of the packet needs. */
  ghost predicate Roomy(s: State, size: nat)
    requires 0 < size
  {
    s.Active? ==>
      && s.curLen == |s.buf| < s.totalLen
      && s.curFrags < s.totalFrags
      && s.totalFrags - s.curFrags <= Pieces(s.totalLen - |s.buf|, size)
  }

  lemma CheckRoomy(p: Piece, alloc: bool, size: nat, path: Path)
    requires 0 < size < 0x8000_0000 && ValidPiece(p, size) && EnoughFrags(size, path)
    ensures Roomy(Check(p, alloc, size, path).state, size)
  {
    var d := p.bytes + p.slack;
    var r := Check(p, alloc, size, path).state;
    if r.Active? {
      DeclaredBound(d, path);
      assert AnnouncedFrags(d, size, path) >= 2;
      FragsAtMostPieces(r.totalLen, size);
    }
  }

  lemma StepRoomy(s: State, p: Piece, alloc: bool, size: nat, path: Path)
    requires 0 < size < 0x8000_0000 && ValidPiece(p, size) && EnoughFrags(size, path) && Roomy(s, size)
    ensures Roomy(Step(s, p, alloc, size, path).state, size)
  {
    CheckRoomy(p, alloc, size, path);
  }

  lemma {:induction false} RoomyFits(s: State, ps: seq<Piece>, alloc: seq<bool>, size: nat, path: Path)
    requires |alloc| == |ps| && 0 < size < 0x8000_0000 && AllValid(ps, size) && EnoughFrags(size, path)
    requires Roomy(s, size)
    ensures RunFits(s, ps, alloc, size, path)
    decreases |ps|
  {
    if ps != [] {
      StepRoomy(s, ps[0], alloc[0], size, path);
      RoomyFits(Step(s, ps[0], alloc[0], size, path).state, ps[1..], alloc[1..], size, path);
    }
  }

  // ---------------------------------------------------------------- too few, overrun

  /** A packet announced with no further piece takes every full transfer, however many there are. */
  lemma {:induction false} TooFewOverruns(s: State, size: nat, path: Path) returns (ps: seq<Piece>, alloc: seq<bool>)
    requires 3 <= size < 0x8000_0000 && s.Active? && 1 <= s.curFrags && s.totalFrags <= 1
    ensures |alloc| == |ps| && AllValid(ps, size) && !RunFits(s, ps, alloc, size, path)
    decreases s.totalLen + 1 - |s.buf|
  {
    if |s.buf| > s.totalLen {
      return [], [];
    }
    var p := Piece(Zeros(size), []);
    var next := Step(s, p, true, size, path).state;
    ps, alloc := TooFewOverruns(next, size, path);
    ps, alloc := [p] + ps, [true] + alloc;
  }

  /** The first piece of a packet with a given header. */
  lemma StartOversize(d: seq<u8>, size: nat, path: Path) returns (p: Piece)
    requires 3 <= size < 0x8000_0000 && |d| >= 3 && Oversize(d, size, path)
    ensures ValidPiece(p, size)
    ensures var r := Check(p, true, size, path).state;
      r.Active? && r.curFrags == 1 && r.totalFrags == AnnouncedFrags(d, size, path)
  {
    p := Piece(d[..3] + Zeros(size - 3), []);
    assert p.bytes + p.slack == p.bytes && p.bytes[..3] == d[..3];
    DeclaredPrefix(p.bytes, d, path);
    assert p.bytes[2] == d[..3][2];
    DeclaredBound(d, path);
  }

  /** No run of pieces, well formed or not, overruns a buffer if and only if every oversize packet is
      announced with at least two pieces. */
  lemma BufferFitsIff(size: nat, path: Path)
    requires 3 <= size < 0x8000_0000
    ensures (forall ps, alloc | |alloc| == |ps| && AllValid(ps, size) :: RunFits(Idle, ps, alloc, size, path))
            <==> EnoughFrags(size, path)
  {
    if EnoughFrags(size, path) {
      forall ps, alloc | |alloc| == |ps| && AllValid(ps, size)
        ensures RunFits(Idle, ps, alloc, size, path)
      {
        RoomyFits(Idle, ps, alloc, size, path);
      }
    } else {
      var d: seq<u8> :| |d| >= 3 && Oversize(d, size, path) && AnnouncedFrags(d, size, path) < 2;
      var ps, alloc := HeaderOverruns(d, size, path);
    }
  }

  lemma HeaderOverruns(d: seq<u8>, size: nat, path: Path) returns (ps: seq<Piece>, alloc: seq<bool>)
    requires 3 <= size < 0x8000_0000 && |d| >= 3 && Oversize(d, size, path) && AnnouncedFrags(d, size, path) < 2
    ensures |alloc| == |ps| && AllValid(ps, size) && !RunFits(Idle, ps, alloc, size, path)
  {
    var p := StartOversize(d, size, path);
    var more, a := TooFewOverruns(Check(p, true, size, path).state, size, path);
    ps, alloc := [p] + more, [true] + a;
    assert ps[1..] == more && alloc[1..] == a;
  }

  /** At 2048 bytes no buffer is overrun ... */
  lemma PacketSizeFits(ps: seq<Piece>, alloc: seq<bool>, path: Path)
    requires |alloc| == |ps| && AllValid(ps, 2048)
    ensures RunFits(Idle, ps, alloc, 2048, path)
  {
    forall d: seq<u8> | |d| >= 3 && Oversize(d, 2048, path)
      ensures AnnouncedFrags(d, 2048, path) >= 2
    {
      DeclaredBound(d, path);
      FragsRoundUp(Declared(d, path).value);
    }
    RoomyFits(Idle, ps, alloc, 2048, path);
  }

  /** ... and at 12288 bytes that of a data packet of 12289 bytes is. */
  lemma AmsduSizeOverruns() returns (ps: seq<Piece>, alloc: seq<bool>)
    ensures |alloc| == |ps| && AllValid(ps, 12288) && !RunFits(Idle, ps, alloc, 12288, Bulk)
  {
    var d: seq<u8> := [0xC5, 0x2F, 0x00];
    AmsduHeader(d);
    ps, alloc := HeaderOverruns(d, 12288, Bulk);
  }

  lemma AmsduHeader(d: seq<u8>)
    requires d == [0xC5, 0x2F, 0x00]
    ensures Oversize(d, 12288, Bulk) && AnnouncedFrags(d, 12288, Bulk) == 1
  {
    assert And(0, 0x10) == 0;
    assert Declared(d, Bulk) == Some(12289);
    AmsduFrags();
  }
}
