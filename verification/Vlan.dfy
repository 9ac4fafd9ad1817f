/** The receive path of the bridge for frames that may carry an 802.1Q tag: the tag is moved out of
    the way in place, the untagged frame is handled, and the tag is put back. */
module Vlan {
  import opened Words

  datatype Handled = Handled(frame: seq<u8>, ret: int)

  /** What the handling of an untagged frame depends on; `lookup` is the database lookup, which may
      rewrite a frame and shorten it. */
  datatype Bridge = Bridge(nat25Disable: bool, scDisable: bool, scdbIp: seq<u8>, scdbMac: seq<u8>, brIp: seq<u8>,
                           lookup: seq<u8> -> Handled)

  ghost predicate ValidBridge(b: Bridge) {
    && |b.scdbMac| == 6 && |b.scdbIp| == 4 && |b.brIp| == 4
    && forall f :: |f| >= 12 ==> 12 <= |b.lookup(f).frame| <= |f|
  }

  /** The bytes from `at`, or nothing when the frame ends before them. */
  function Bytes(f: seq<u8>, at: nat, n: nat): seq<u8> {
    if at + n <= |f| then f[at..at + n] else []
  }

  /** The shortcut entry, the database, or, with the database off, only what is for the bridge
      itself. */
  function HandleUntagged(b: Bridge, f: seq<u8>): Handled
    requires ValidBridge(b) && |f| >= 12
  {
    var ip, arp := Bytes(f, 12, 2) == [0x08, 0x00], Bytes(f, 12, 2) == [0x08, 0x06];
    if !b.nat25Disable then
      if !b.scDisable && ip && b.scdbIp == Bytes(f, 30, 4) then Handled(b.scdbMac + f[6..], 0)
      else b.lookup(f)
    else if (ip && b.brIp == Bytes(f, 30, 4)) || (arp && b.brIp == Bytes(f, 38, 4)) then b.lookup(f)
    else Handled(f, 0)
  }

  predicate IsTagged(f: seq<u8>) {
    |f| >= 16 && f[12..14] == [0x81, 0x00]
  }

  /** The headers that nat25_handle_frame looks at are there: the Ethernet header, and behind an
      802.1Q type the tag. */
  predicate HasHeaders(f: seq<u8>) {
    |f| >= 14 && (f[12..14] == [0x81, 0x00] ==> |f| >= 16)
  }

  function Untag(f: seq<u8>): seq<u8>
    requires |f| >= 16
  {
    f[..12] + f[16..]
  }

  function Retag(f: seq<u8>, tci: seq<u8>): seq<u8>
    requires |f| >= 12
  {
    f[..12] + [0x81, 0x00] + tci + f[12..]
  }

  /** nat25_handle_frame on frames: multicast frames pass, and a tagged frame is untagged, handled
      and tagged again. */
  function HandleFrame(b: Bridge, f: seq<u8>): Handled
    requires ValidBridge(b) && HasHeaders(f)
  {
    if f[0] % 2 == 1 then Handled(f, 0)
    else
      var r := HandleUntagged(b, if IsTagged(f) then Untag(f) else f);
      Handled(if IsTagged(f) then Retag(r.frame, f[14..16]) else r.frame, if r.ret == -1 then -1 else 0)
  }

  /** Untagging and tagging are inverse to each other. */
  lemma RetagUntag(f: seq<u8>, tci: seq<u8>)
    requires |tci| == 2
    ensures IsTagged(f) ==> Retag(Untag(f), f[14..16]) == f
    ensures |f| >= 12 ==> IsTagged(Retag(f, tci)) && Untag(Retag(f, tci)) == f && Retag(f, tci)[14..16] == tci
  {
    if IsTagged(f) {
      assert f[..12] + f[12..14] + f[14..16] + f[16..] == f;
    }
    if |f| >= 12 {
      var g := Retag(f, tci);
      assert g[..12] == f[..12] && g[12..14] == [0x81, 0x00] && g[14..16] == tci && g[16..] == f[12..];
      assert f[..12] + f[12..] == f;
    }
  }

  /** A tagged unicast frame comes out as its untagged counterpart would, with the same tag. */
  lemma TagCommutes(b: Bridge, f: seq<u8>, tci: seq<u8>)
    requires ValidBridge(b) && HasHeaders(f) && |tci| == 2 && f[0] % 2 == 0 && !IsTagged(f)
    ensures |HandleFrame(b, f).frame| >= 12 && HasHeaders(Retag(f, tci))
    ensures HandleFrame(b, Retag(f, tci)) == Handled(Retag(HandleFrame(b, f).frame, tci), HandleFrame(b, f).ret)
  {
    RetagUntag(f, tci);
    assert Retag(f, tci)[0] == f[0];
  }

  /** What becomes of a frame that goes through the database. */
  ghost function Looked(b: Bridge, f: seq<u8>): Handled {
    Handled(b.lookup(f).frame, if b.lookup(f).ret == -1 then -1 else 0)
  }

  /** Multicast frames pass, tagged or not. */
  lemma MulticastPasses(b: Bridge, f: seq<u8>)
    requires ValidBridge(b) && HasHeaders(f) && f[0] % 2 == 1
    ensures HandleFrame(b, f) == Handled(f, 0)
  {
  }

  /** An IPv4 frame: the addresses, the type, an IPv4 header up to its destination, and the rest. With
      the database and the shortcut enabled, a frame for the shortcut's IP address goes to the
      shortcut's MAC address and to no lookup, and keeps everything else; with the database disabled,
      only a frame for the bridge's own IP address is looked up. */
  lemma Ipv4Frame(b: Bridge, da: seq<u8>, sa: seq<u8>, header: seq<u8>, dip: seq<u8>, rest: seq<u8>)
    requires ValidBridge(b) && |da| == 6 && da[0] % 2 == 0 && |sa| == 6 && |header| == 16 && |dip| == 4
    ensures var behind := sa + [0x08, 0x00] + header + dip + rest;
      && HasHeaders(da + behind)
      && HandleFrame(b, da + behind)
         == if !b.nat25Disable && !b.scDisable && dip == b.scdbIp then Handled(b.scdbMac + behind, 0)
            else if b.nat25Disable && dip != b.brIp then Handled(da + behind, 0)
            else Looked(b, da + behind)
  {
    var f := da + (sa + [0x08, 0x00] + header + dip + rest);
    assert f[12..14] == [0x08, 0x00] && f[30..34] == dip;
    assert f[6..] == sa + [0x08, 0x00] + header + dip + rest;
  }

  /** An ARP frame, with the IP address asked for at its end. */
  lemma ArpFrame(b: Bridge, da: seq<u8>, sa: seq<u8>, body: seq<u8>, tip: seq<u8>, rest: seq<u8>)
    requires ValidBridge(b) && |da| == 6 && da[0] % 2 == 0 && |sa| == 6 && |body| == 24 && |tip| == 4
    ensures var f := da + sa + [0x08, 0x06] + body + tip + rest;
      && HasHeaders(f)
      && HandleFrame(b, f) == if b.nat25Disable && tip != b.brIp then Handled(f, 0) else Looked(b, f)
  {
    var f := da + sa + [0x08, 0x06] + body + tip + rest;
    assert f[12..14] == [0x08, 0x06] && f[38..42] == tip;
  }

  /** Any other frame without a tag is looked up unless the database is disabled. */
  lemma OtherFrame(b: Bridge, f: seq<u8>)
    requires ValidBridge(b) && HasHeaders(f) && f[0] % 2 == 0
    requires f[12..14] !in {[0x08, 0x00], [0x08, 0x06], [0x81, 0x00]}
    ensures HandleFrame(b, f) == if b.nat25Disable then Handled(f, 0) else Looked(b, f)
  {
  }

  // ---------------------------------------------------------------- the buffer

  /** What the first loop leaves in a buffer: the twelve address bytes four places further up. */
  function Lifted(w: seq<u8>, s: nat): seq<u8>
    requires s + 16 <= |w|
  {
    w[..s + 4] + w[s..s + 12] + w[s + 16..]
  }

  /** What the second loop and the tag leave. */
  function Lowered(w: seq<u8>, s: nat, tci: seq<u8>): seq<u8>
    requires s + 16 <= |w|
  {
    w[..s] + w[s + 4..s + 16] + [0x81, 0x00] + tci + w[s + 16..]
  }

  lemma LoweredAt(w: seq<u8>, s: nat, v0: u8, v1: u8, k: nat)
    requires s + 16 <= |w| && k < |w|
    ensures |Lowered(w, s, [v0, v1])| == |w|
    ensures Lowered(w, s, [v0, v1])[k] ==
            if k < s then w[k] else if k < s + 12 then w[k + 4]
            else if k == s + 12 then 0x81 else if k == s + 13 then 0x00
            else if k == s + 14 then v0 else if k == s + 15 then v1 else w[k]
  {
  }

  lemma LiftedFrame(a: seq<u8>, f: seq<u8>, z: seq<u8>)
    requires |f| >= 16
    ensures Lifted(a + f + z, |a|) == (a + f[..4]) + Untag(f) + z
  {
    var w := a + f + z;
    assert w[..|a| + 4] == a + f[..4];
    assert w[|a|..|a| + 12] == f[..12];
    assert w[|a| + 16..] == f[16..] + z;
  }

  lemma LoweredFrame(a: seq<u8>, gap: seq<u8>, f: seq<u8>, z: seq<u8>, tci: seq<u8>)
    requires |gap| == 4 && |f| >= 12
    ensures Lowered(a + gap + f + z, |a|, tci) == a + Retag(f, tci) + z
  {
    var w := a + gap + f + z;
    assert w[..|a|] == a;
    assert w[|a| + 4..|a| + 16] == f[..12];
    assert w[|a| + 16..] == f[12..] + z;
  }

  /** A buffer with the first `k` bytes of a frame written from `s` on. */
  function Over(w: seq<u8>, s: nat, frame: seq<u8>, k: nat): seq<u8>
    requires s + |frame| <= |w| && k <= |frame|
  {
    w[..s] + frame[..k] + w[s + k..]
  }

  lemma Written(w: seq<u8>, s: nat, frame: seq<u8>, k: nat)
    requires s + |frame| <= |w| && k < |frame|
    ensures |Over(w, s, frame, k)| == |w|
    ensures Over(w, s, frame, k)[s + k := frame[k]] == Over(w, s, frame, k + 1)
  {
  }

  lemma OverStart(w: seq<u8>, s: nat, frame: seq<u8>)
    requires s + |frame| <= |w|
    ensures Over(w, s, frame, 0) == w
  {
  }

  lemma OverFrame(a: seq<u8>, f: seq<u8>, z: seq<u8>, frame: seq<u8>)
    requires |frame| <= |f|
    ensures Over(a + f + z, |a|, frame, |frame|) == a + frame + (f[|frame|..] + z)
  {
    var w := a + f + z;
    assert w[..|a|] == a && w[|a| + |frame|..] == f[|frame|..] + z;
  }

  class Skb {
    const buf: array<u8>
    var start: nat
    var len: nat

    /** The buffer holds `a`, then the frame `f`, then `z`. */
    ghost predicate Holds(a: seq<u8>, f: seq<u8>, z: seq<u8>)
      reads this, buf
    {
      buf[..] == a + f + z && start == |a| && len == |f|
    }

    /** A 16-bit copy within the buffer. */
    method CopyWord(to: nat, from: nat)
      requires to + 1 < buf.Length && from + 1 < buf.Length
      modifies buf
      ensures buf[to] == old(buf[from]) && buf[to + 1] == old(buf[from + 1])
      ensures forall k :: 0 <= k < buf.Length && k != to && k != to + 1 ==> buf[k] == old(buf[k])
    {
      buf[to], buf[to + 1] := buf[from], buf[from + 1];
    }

    /** The first loop: the last word first, so that no word is overwritten before it is moved. */
    method Lift()
      requires start + 16 <= buf.Length
      modifies buf
      ensures buf[..] == Lifted(old(buf[..]), start)
    {
      ghost var was := buf[..];
      for i := 0 to 6
        invariant forall k :: 0 <= k < start + 16 - 2 * i ==> buf[k] == was[k]
        invariant forall k :: start + 16 - 2 * i <= k < start + 16 ==> buf[k] == was[k - 4]
        invariant forall k :: start + 16 <= k < buf.Length ==> buf[k] == was[k]
      {
        CopyWord(start + 14 - 2 * i, start + 10 - 2 * i);
      }
    }

    /** The second loop, first word first. */
    method MoveDown()
      requires start + 16 <= buf.Length
      modifies buf
      ensures forall k :: 0 <= k < start ==> buf[k] == old(buf[k])
      ensures forall k :: start <= k < start + 12 ==> buf[k] == old(buf[k + 4])
      ensures forall k :: start + 12 <= k < buf.Length ==> buf[k] == old(buf[k])
    {
      ghost var was := buf[..];
      for i := 0 to 6
        invariant forall k :: 0 <= k < start ==> buf[k] == was[k]
        invariant forall k :: start <= k < start + 2 * i ==> buf[k] == was[k + 4]
        invariant forall k :: start + 2 * i <= k < buf.Length ==> buf[k] == was[k]
      {
        CopyWord(start + 2 * i, start + 4 + 2 * i);
      }
    }

    /** The second loop, and the tag. */
    method Lower(v0: u8, v1: u8)
      requires start + 16 <= buf.Length
      modifies buf
      ensures buf[..] == Lowered(old(buf[..]), start, [v0, v1])
    {
      MoveDown();
      buf[start + 12], buf[start + 13] := 0x81, 0x00;
      buf[start + 14], buf[start + 15] := v0, v1;
      hide Lowered;
      forall k | 0 <= k < buf.Length
        ensures |Lowered(old(buf[..]), start, [v0, v1])| == buf.Length
        ensures buf[k] == Lowered(old(buf[..]), start, [v0, v1])[k]
      {
        LoweredAt(old(buf[..]), start, v0, v1, k);
      }
    }

    /** The handling of an untagged frame, written back over it. */
    method Handle(b: Bridge, ghost a: seq<u8>, ghost f: seq<u8>, ghost z: seq<u8>)
      returns (ret: int, ghost rest: seq<u8>)
      requires Holds(a, f, z) && |f| >= 12 && ValidBridge(b)
      modifies this`len, buf
      ensures var r := HandleUntagged(b, f);
        ret == r.ret && 12 <= |r.frame| && |r.frame| + |rest| == |f| && Holds(a, r.frame, rest + z)
    {
      assert buf[start..start + len] == f;
      var r := HandleUntagged(b, buf[start..start + len]);
      rest := f[|r.frame|..];
      Write(r.frame);
      OverFrame(a, f, z, r.frame);
      len := |r.frame|;
      ret := r.ret;
    }

    method SetByte(at: nat, v: u8)
      requires at < buf.Length
      modifies buf
      ensures buf[..] == old(buf[..])[at := v]
    {
      buf[at] := v;
    }

    method Write(frame: seq<u8>)
      requires start + |frame| <= buf.Length
      modifies buf
      ensures buf[..] == Over(old(buf[..]), start, frame, |frame|)
    {
      hide Over;
      OverStart(buf[..], start, frame);
      for k := 0 to |frame|
        invariant buf[..] == Over(old(buf[..]), start, frame, k)
      {
        Written(old(buf[..]), start, frame, k);
        SetByte(start + k, frame[k]);
      }
    }

    /** nat25_handle_frame: the frame becomes what `HandleFrame` says and no byte before or behind
        it is changed, although the work is done in place and the copies overlap. */
    method Nat25HandleFrame(b: Bridge, ghost a: seq<u8>, ghost f: seq<u8>, ghost z: seq<u8>)
      returns (ret: int, ghost rest: seq<u8>)
      requires Holds(a, f, z) && HasHeaders(f) && ValidBridge(b)
      modifies this`start, this`len, buf
      ensures var r := HandleFrame(b, f);
        ret == r.ret && |r.frame| + |rest| == |f| && Holds(a, r.frame, rest + z)
    {
      hide Lifted, Lowered, Retag, Untag;
      assert f == (a + f + z)[|a|..|a| + |f|] == buf[start..start + len];
      if buf[start] % 2 == 1 {
        ret, rest := 0, [];
        assert rest + z == z;
        return;
      }
      var tagged := buf[start + 12] == 0x81 && buf[start + 13] == 0x00;
      assert f[12..14] == [f[12], f[13]];
      var retval;
      if tagged {
        var v0, v1 := buf[start + 14], buf[start + 15];
        assert f[14..16] == [v0, v1];
        Lift();
        LiftedFrame(a, f, z);
        start, len := start + 4, len - 4;
        retval, rest := Handle(b, a + f[..4], Untag(f), z);
        start, len := start - 4, len + 4;
        Lower(v0, v1);
        LoweredFrame(a, f[..4], HandleUntagged(b, Untag(f)).frame, rest + z, [v0, v1]);
      } else {
        retval, rest := Handle(b, a, f, z);
      }
      ret := if retval == -1 then -1 else 0;
    }
  }
}
