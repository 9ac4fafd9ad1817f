/** The incremental form of MD5: a context that buffers an incomplete block and counts bits in two
    32-bit words, for messages that arrive in pieces. */
module Md5 {
  import opened Words
  import opened Md5Spec
  import opened Md5Block
  import opened Sequences

  // ---------------------------------------------------------------- the bit counter

  /** The two words hold the low-order 64 bits of the number of bits in `n` bytes. */
  ghost predicate Counts(c0: int, c1: int, n: nat) {
    c0 + 0x1_0000_0000 * c1 == (8 * n) % 0x1_0000_0000_0000_0000
  }

  lemma CountIndex(c0: u32, c1: u32, n: nat)
    requires Counts(c0, c1, n)
    ensures And(c0 / 8, 0x3F) == n % 64
  {
    CountMod(c0, c1, n);
    assert Pow2(6) == 64;
    AndMask(c0 / 8, 6);
  }

  lemma CountMod(c0: u32, c1: u32, n: nat)
    requires Counts(c0, c1, n)
    ensures (c0 / 8) % 64 == n % 64
  {
    var q := (8 * n) / 0x1_0000_0000_0000_0000;
    var k := 0x80_0000 * c1 + 0x80_0000_0000_0000 * q;
    assert c0 / 8 == n + 64 * -k;
    ModAdd(n, 64, -k);
  }

  /** The counter update of MD5Update. */
  lemma CountAdd(c0: u32, c1: u32, n: nat, len: u32, d0: u32, carry: int, d1: u32)
    requires Counts(c0, c1, n)
    requires d0 == Wrap32(c0 + Wrap32(8 * len))
    requires carry == if d0 < Wrap32(8 * len) then 1 else 0
    requires d1 == Wrap32(Wrap32(c1 + carry) + len / 0x2000_0000)
    ensures Counts(d0, d1, n + len)
  {
    var lo, hi := Wrap32(8 * len), len / 0x2000_0000;
    assert 8 * len == lo + 0x1_0000_0000 * hi;
    assert c0 + lo == d0 + 0x1_0000_0000 * carry;
    SumWraps(c1, carry, hi, d1);
    var over :| c1 + carry + hi == d1 + 0x1_0000_0000 * over;
    CountTotal(8 * n, 8 * len, d0, d1, over);
  }

  lemma SumWraps(c1: u32, carry: int, hi: int, d1: u32)
    requires 0 <= carry <= 1 && 0 <= hi < 8 && d1 == Wrap32(Wrap32(c1 + carry) + hi)
    ensures exists over :: c1 + carry + hi == d1 + 0x1_0000_0000 * over
  {
    var over := (c1 + carry + hi) / 0x1_0000_0000;
    assert c1 + carry + hi == d1 + 0x1_0000_0000 * over;
  }

  lemma CountTotal(x: nat, y: nat, d0: u32, d1: u32, over: int)
    requires x % 0x1_0000_0000_0000_0000 + y == d0 + 0x1_0000_0000 * d1 + 0x1_0000_0000_0000_0000 * over
    ensures d0 + 0x1_0000_0000 * d1 == (x + y) % 0x1_0000_0000_0000_0000
  {
    var q := x / 0x1_0000_0000_0000_0000;
    var r := d0 + 0x1_0000_0000 * d1;
    assert x + y == 0x1_0000_0000_0000_0000 * (q + over) + r;
    DivModUnique(x + y, 0x1_0000_0000_0000_0000, q + over, r);
  }

  // ---------------------------------------------------------------- whole blocks and the rest

  function Whole(m: seq<u8>): (r: seq<u8>)
    ensures |r| == |m| - |m| % 64 && |r| % 64 == 0
  {
    m[..|m| - |m| % 64]
  }

  function Rest(m: seq<u8>): (r: seq<u8>)
    ensures |r| == |m| % 64 && Whole(m) + r == m
  {
    m[|m| - |m| % 64..]
  }

  lemma RestGrows(m: seq<u8>, input: seq<u8>)
    requires |m| % 64 + |input| < 64
    ensures Whole(m + input) == Whole(m) && Rest(m + input) == Rest(m) + input
  {
    WholeLength(m, input);
  }

  lemma WholeLength(m: seq<u8>, input: seq<u8>)
    requires |m| % 64 + |input| < 64
    ensures |m + input| % 64 == |m| % 64 + |input|
  {
  }

  lemma RestAfterBlocks(m: seq<u8>, input: seq<u8>, i: nat)
    requires i <= |input| < i + 64 && (|m| + i) % 64 == 0
    ensures Whole(m + input) == m + input[..i] && Rest(m + input) == input[i..]
  {
    assert |m + input| % 64 == |input| - i;
    assert m + input == (m + input[..i]) + input[i..];
  }

  lemma NextBlock(m: seq<u8>, input: seq<u8>, i: nat)
    requires i + 64 <= |input|
    ensures m + input[..i] + input[i..i + 64] == m + input[..i + 64]
  {
  }

  /** `chain` gives the state after any number of whole blocks. */
  ghost predicate Chains(chain: seq<u8> -> Regs) {
    && chain([]) == INITIAL
    && forall m, block {:trigger Compress(chain(m), block)} ::
         |m| % 64 == 0 && |block| == 64 ==> chain(m + block) == Compress(chain(m), block)
  }

  lemma BlockChain() returns (chain: seq<u8> -> Regs)
    ensures Chains(chain)
  {
    hide Chains, Compress, FoldBlocks;
    chain := m => FoldBlocks(Compress, INITIAL, m);
    FoldChains(chain);
  }

  lemma ChainStart(chain: seq<u8> -> Regs)
    requires Chains(chain)
    ensures chain(Whole([])) == INITIAL && Whole([]) == [] && Rest([]) == []
  {
  }

  lemma {:induction false} ChainIsFold(chain: seq<u8> -> Regs, m: seq<u8>)
    requires Chains(chain) && |m| % 64 == 0
    ensures chain(m) == FoldBlocks(Compress, INITIAL, m)
    decreases |m|
  {
    if m != [] {
      var front, block := m[..|m| - 64], m[|m| - 64..];
      assert m == front + block;
      ChainIsFold(chain, front);
      FoldAppend(Compress, INITIAL, front, block);
      FoldOne(Compress, chain(front), block);
      assert chain(front + block) == Compress(chain(front), block);
    }
  }

  lemma FoldChains(chain: seq<u8> -> Regs)
    requires forall m :: chain(m) == FoldBlocks(Compress, INITIAL, m)
    ensures Chains(chain)
  {
    forall m, block | |m| % 64 == 0 && |block| == 64
      ensures chain(m + block) == Compress(chain(m), block)
    {
      FoldAppend(Compress, INITIAL, m, block);
      FoldOne(Compress, chain(m), block);
    }
  }

  lemma FoldOne<S>(f: (S, seq<u8>) -> S, r: S, block: seq<u8>)
    requires |block| == 64
    ensures FoldBlocks(f, r, block) == f(r, block)
  {
    assert block[..64] == block && block[64..] == [];
  }

  method Absorb(state: array<u32>, block: seq<u8>, ghost m: seq<u8>, ghost chain: seq<u8> -> Regs)
    requires state.Length == 4 && |block| == 64 && |m| % 64 == 0 && Chains(chain) && StateOf(state) == chain(m)
    modifies state
    ensures StateOf(state) == chain(m + block)
  {
    assert chain(m + block) == Compress(chain(m), block);
    Transform(state, block);
  }

  method Copy(buffer: array<u8>, at: nat, bytes: seq<u8>)
    requires at + |bytes| <= buffer.Length
    modifies buffer
    ensures buffer[..at + |bytes|] == old(buffer[..at]) + bytes
  {
    forall k | 0 <= k < |bytes| {
      buffer[at + k] := bytes[k];
    }
  }

  lemma CountsNothing()
    ensures Counts(0, 0, 0)
  {
  }

  /** The assignments of MD5Init. */
  method Start(count: array<u32>, state: array<u32>)
    requires count.Length == 2 && state.Length == 4 && count != state
    modifies count, state
    ensures Counts(count[0], count[1], 0) && StateOf(state) == INITIAL
  {
    hide Counts;
    CountsNothing();
    count[0], count[1] := 0, 0;
    state[0], state[1], state[2], state[3] := 0x6745_2301, 0xEFCD_AB89, 0x98BA_DCFE, 0x1032_5476;
  }

  // ---------------------------------------------------------------- the context

  /** No sum `i + 64` of the loop test wraps when `len` bytes follow `n`. */
  predicate NoWrap(n: nat, len: nat) {
    var part := 64 - n % 64;
    part <= len ==> part + (len - part) / 64 * 64 + 64 < 0x1_0000_0000
  }

  lemma NoWrapShort(n: nat, len: nat)
    requires len < 0x1_0000_0000 - 64
    ensures NoWrap(n, len)
  {
  }

  /** Then the test at each block boundary within the input is right. */
  lemma LoopTest(n: nat, part: nat, k: nat, len: nat)
    requires NoWrap(n, len) && part == 64 - n % 64 && part + 64 * k <= len
    ensures Wrap32(part + 64 * k + 64) <= len <==> part + 64 * k + 64 <= len
  {
    assert k <= (len - part) / 64;
  }

  /** Without it, the test at the last block boundary comes out true where no block is left. */
  lemma LastTestIff(n: nat, part: nat, len: u32)
    requires part == 64 - n % 64 && part <= len
    ensures var last := part + (len - part) / 64 * 64;
      last <= len < last + 64 && (Wrap32(last + 64) <= len <==> !NoWrap(n, len))
  {
  }

  /** A first update of the largest 32-bit length meets that test. */
  lemma LargestUpdateWraps()
    ensures !NoWrap(0, 0xFFFF_FFFF) && Wrap32(0xFFFF_FFC0 + 64) <= 0xFFFF_FFFF
    ensures 0xFFFF_FFC0 == 64 + (0xFFFF_FFFF - 64) / 64 * 64 && 0xFFFF_FFFF < 0xFFFF_FFC0 + 64
  {
  }

  lemma {:induction false} ZerosPrefix(n: nat, k: nat)
    requires k <= n
    ensures Zeros(n)[..k] == Zeros(k)
  {
    if k > 0 {
      ZerosPrefix(n - 1, k - 1);
      assert Zeros(n)[1..] == Zeros(n - 1);
      assert Zeros(n)[..k] == [0] + Zeros(n)[1..][..k - 1];
    }
  }

  lemma PadLengthIs(n: nat, index: nat, padlen: nat)
    requires index == n % 64 && padlen == if index < 56 then 56 - index else 120 - index
    ensures padlen == PadLength(n)
  {
  }

  /** The first bytes of the array PADDING. */
  lemma PaddingPrefix(padlen: nat)
    requires 1 <= padlen <= 64
    ensures Padding(64)[..padlen] == Padding(padlen)
  {
    ZerosPrefix(63, padlen - 1);
    assert Padding(64)[..padlen] == [0x80] + Zeros(63)[..padlen - 1];
  }

  lemma WholeIs(m: seq<u8>)
    requires |m| % 64 == 0
    ensures Whole(m) == m
  {
  }

  lemma DigestIs(m: seq<u8>, r: Regs, chain: seq<u8> -> Regs)
    requires Chains(chain) && r == chain(Padded(m))
    ensures Digest(m) == BytesOf([r.a, r.b, r.c, r.d])
  {
    ChainIsFold(chain, Padded(m));
  }

  class Context {
    const count: array<u32>
    const state: array<u32>
    const buffer: array<u8>

    ghost var consumed: seq<u8>          // the bytes of all updates
    ghost const chain: seq<u8> -> Regs

    ghost predicate Valid()
      reads this, count, state, buffer
    {
      && count.Length == 2 && state.Length == 4 && buffer.Length == 64 && count != state
      && Counts(count[0], count[1], |consumed|)
      && Chains(chain) && StateOf(state) == chain(Whole(consumed))
      && buffer[..|consumed| % 64] == Rest(consumed)
    }

    /** MD5Init */
    constructor ()
      ensures Valid() && consumed == [] && fresh(count) && fresh(state) && fresh(buffer)
    {
      hide Chains, Rest, StateOf, Whole;
      count, state, buffer := new u32[2], new u32[4], new u8[64];
      consumed := [];
      ghost var c := BlockChain();
      chain := c;
      new;
      ChainStart(chain);
      Start(count, state);
    }

    /** MD5Update, for an input on which the 32-bit sum in its loop test does not wrap; the code does
        not check that. */
    method Update(input: seq<u8>)
      requires Valid() && |input| < 0x1_0000_0000 && NoWrap(|consumed|, |input|)
      modifies this, count, state, buffer
      ensures Valid() && consumed == old(consumed) + input
    {
      var inputlen: u32 := |input|;
      var index := Index();
      Tally(inputlen, |consumed|);
      var partlen := 64 - index;
      var i := 0;
      if inputlen >= partlen {
        i := Fill(input, index, partlen);
        RestAfterBlocks(consumed, input, i);
        index := 0;
      } else {
        RestGrows(consumed, input);
      }
      Keep(consumed + input, index, input[i..]);
    }

    /** The bytes that no block takes go to the buffer. */
    method Keep(ghost m: seq<u8>, index: nat, rest: seq<u8>)
      requires count.Length == 2 && state.Length == 4 && buffer.Length == 64 && count != state && Chains(chain)
      requires Counts(count[0], count[1], |m|) && StateOf(state) == chain(Whole(m))
      requires index <= 64 && Rest(m) == buffer[..index] + rest
      modifies this`consumed, buffer
      ensures Valid() && consumed == m
    {
      consumed := m;
      Copy(buffer, index, rest);
    }

    /** Completes the buffered block and takes the whole blocks that follow. */
    method Fill(input: seq<u8>, index: nat, partlen: nat) returns (i: nat)
      requires Chains(chain) && state.Length == 4 && buffer.Length == 64
      requires index == |consumed| % 64 && partlen == 64 - index && partlen <= |input|
      requires StateOf(state) == chain(Whole(consumed)) && buffer[..index] == Rest(consumed)
      requires NoWrap(|consumed|, |input|) && partlen == 64 - |consumed| % 64
      modifies state, buffer
      ensures i <= |input| < i + 64 && (|consumed| + i) % 64 == 0
      ensures StateOf(state) == chain(consumed + input[..i])
    {
      Copy(buffer, index, input[..partlen]);
      assert buffer[..] == Rest(consumed) + input[..partlen];
      Absorb(state, buffer[..], Whole(consumed), chain);
      assert Whole(consumed) + buffer[..] == consumed + input[..partlen];
      i := Blocks(input, partlen);
    }

    /** The number of bytes buffered. */
    method Index() returns (index: nat)
      requires Valid()
      ensures index == |consumed| % 64
    {
      CountIndex(count[0], count[1], |consumed|);
      index := And(count[0] / 8, 0x3F);
    }

    method Tally(inputlen: u32, ghost n: nat)
      requires count.Length == 2 && Counts(count[0], count[1], n)
      modifies count
      ensures Counts(count[0], count[1], n + inputlen)
    {
      hide Counts;
      var bits := Wrap32(8 * inputlen);
      ghost var c0, c1, carry := count[0], count[1], 0;
      count[0] := Wrap32((count[0] as int) + bits);
      if count[0] < bits {
        count[1] := Wrap32((count[1] as int) + 1);
        carry := 1;
      }
      count[1] := Wrap32((count[1] as int) + inputlen / 0x2000_0000);
      CountAdd(c0, c1, n, inputlen, count[0], carry, count[1]);
    }

    method Blocks(input: seq<u8>, partlen: nat) returns (i: nat)
      requires Chains(chain) && state.Length == 4 && partlen <= |input|
      requires NoWrap(|consumed|, |input|) && partlen == 64 - |consumed| % 64
      requires StateOf(state) == chain(consumed + input[..partlen])
      modifies state
      ensures i <= |input| < i + 64 && (|consumed| + i) % 64 == 0
      ensures StateOf(state) == chain(consumed + input[..i])
    {
      hide NoWrap, StateOf, WordsOf, Wrap32;
      i := partlen;
      ghost var k := 0;
      LoopTest(|consumed|, partlen, k, |input|);
      while Wrap32(i + 64) <= |input|
        invariant i == partlen + 64 * k && i <= |input| && (Wrap32(i + 64) <= |input| <==> i + 64 <= |input|)
        invariant (|consumed| + i) % 64 == 0
        invariant StateOf(state) == chain(consumed + input[..i])
        decreases |input| - i
      {
        Absorb(state, input[i..i + 64], consumed + input[..i], chain);
        NextBlock(consumed, input, i);
        i, k := i + 64, k + 1;
        LoopTest(|consumed|, partlen, k, |input|);
      }
    }

    /** The two updates of MD5Final. */
    method Pad()
      requires Valid()
      modifies this, count, state, buffer
      ensures Valid() && consumed == Padded(old(consumed))
    {
      ghost var m := consumed;
      var index := Index();
      var padlen := if index < 56 then 56 - index else 120 - index;
      PadLengthIs(|m|, index, padlen);
      var bits := CountBytes();
      NoWrapShort(|m|, padlen);
      PaddingPrefix(padlen);
      Update(Padding(64)[..padlen]);
      NoWrapShort(|m| + padlen, 8);
      Update(bits);
    }

    method CountBytes() returns (bits: seq<u8>)
      requires Valid()
      ensures bits == LittleEndian((8 * |consumed|) % 0x1_0000_0000_0000_0000, 8)
    {
      var out := new u8[8];
      LittleEndianPair(count[0], count[1]);
      assert count[..] == [count[0], count[1]];
      Encode(out, count[..], 8);
      bits := out[..];
    }

    /** MD5Final */
    method Final(digest: array<u8>)
      requires Valid() && digest.Length == 16 && digest != buffer
      modifies this, count, state, buffer, digest
      ensures digest[..] == Digest(old(consumed))
    {
      ghost var m := consumed;
      Pad();
      WholeIs(Padded(m));
      DigestIs(m, StateOf(state), chain);
      assert state[..] == [state[0], state[1], state[2], state[3]];
      Encode(digest, state[..], 16);
    }
  }

  function Concat(pieces: seq<seq<u8>>): seq<u8> {
    if pieces == [] then [] else Concat(pieces[..|pieces| - 1]) + pieces[|pieces| - 1]
  }

  /** No update with one of these pieces, after `n` bytes, has a loop sum that wraps. */
  ghost predicate NoneWraps(n: nat, pieces: seq<seq<u8>>) {
    forall k :: 0 <= k < |pieces| ==>
      |pieces[k]| < 0x1_0000_0000 && NoWrap(n + |Concat(pieces[..k])|, |pieces[k]|)
  }

  /** That holds of pieces of any number that are shorter than 2^32 - 64 bytes. */
  lemma ShortPieces(n: nat, pieces: seq<seq<u8>>)
    requires forall k :: 0 <= k < |pieces| ==> |pieces[k]| < 0x1_0000_0000 - 64
    ensures NoneWraps(n, pieces)
  {
    forall k | 0 <= k < |pieces|
      ensures NoWrap(n + |Concat(pieces[..k])|, |pieces[k]|)
    {
      NoWrapShort(n + |Concat(pieces[..k])|, |pieces[k]|);
    }
  }

  method UpdateAll(context: Context, pieces: seq<seq<u8>>)
    requires context.Valid() && NoneWraps(|context.consumed|, pieces)
    modifies context, context.count, context.state, context.buffer
    ensures context.Valid() && context.consumed == old(context.consumed) + Concat(pieces)
  {
    hide NoWrap, Rest, Whole, Context.Valid;
    for k := 0 to |pieces|
      invariant context.Valid() && context.consumed == old(context.consumed) + Concat(pieces[..k])
    {
      context.Update(pieces[k]);
      assert pieces[..k + 1][..k] == pieces[..k];
    }
    assert pieces[..|pieces|] == pieces;
  }

  method Finish(context: Context, ghost m: seq<u8>) returns (digest: seq<u8>)
    requires context.Valid() && context.consumed == m
    modifies context, context.count, context.state, context.buffer
    ensures digest == Digest(m)
  {
    var out := new u8[16];
    context.Final(out);
    digest := out[..];
  }

  /** MD5Init, one MD5Update for each piece, and MD5Final: however a message is cut into pieces, the
      digest is that of the whole message. */
  method HashPieces(pieces: seq<seq<u8>>) returns (digest: seq<u8>)
    requires NoneWraps(0, pieces)
    ensures digest == Digest(Concat(pieces))
  {
    var context := new Context();
    UpdateAll(context, pieces);
    digest := Finish(context, Concat(pieces));
  }
}
