/** MD5 as RFC 1321 defines it: one message, padded, then folded block by block. */
module Md5Spec {
  import opened Sequences
  import opened Words
  import opened Md5Bits

  // ---------------------------------------------------------------- bytes and words

  /** The `k` low-order bytes of a number, least significant first. */
  function LittleEndian(x: nat, k: nat): (r: seq<u8>)
    ensures |r| == k
  {
    if k == 0 then [] else [x % 256] + LittleEndian(x / 256, k - 1)
  }

  /** The number that a list of bytes, least significant first, stands for. */
  function Number(bs: seq<u8>): nat {
    if bs == [] then 0 else bs[0] + 256 * Number(bs[1..])
  }

  function BytesOf(ws: seq<u32>): (r: seq<u8>)
    ensures |r| == 4 * |ws|
  {
    if ws == [] then [] else LittleEndian(ws[0], 4) + BytesOf(ws[1..])
  }

  function WordsOf(bs: seq<u8>): (r: seq<u32>)
    requires |bs| % 4 == 0
    ensures |r| == |bs| / 4
  {
    if bs == [] then [] else
      NumberOf4(bs[..4]);
      [Number(bs[..4])] + WordsOf(bs[4..])
  }

  lemma NumberOf4(b: seq<u8>)
    requires |b| == 4
    ensures Number(b) == b[0] + 0x100 * (b[1] as int) + 0x1_0000 * (b[2] as int) + 0x100_0000 * (b[3] as int)
    ensures Number(b) < 0x1_0000_0000
  {
    assert b[1..][1..] == b[2..] && b[2..][1..] == b[3..] && b[3..][1..] == [];
    assert Number(b[3..]) == b[3] && Number(b[2..]) == b[2] + 0x100 * (b[3] as int);
  }

  lemma {:induction false} NumberOfLittleEndian(x: nat, k: nat)
    requires x < Pow2(8 * k)
    ensures Number(LittleEndian(x, k)) == x
  {
    if k > 0 {
      assert Pow2(8 * k) == 256 * Pow2(8 * (k - 1)) by {
        Pow2Add(8, 8 * (k - 1));
        assert Pow2(8) == 256;
      }
      NumberOfLittleEndian(x / 256, k - 1);
      assert LittleEndian(x, k)[1..] == LittleEndian(x / 256, k - 1);
    }
  }

  lemma {:induction false} LittleEndianOfNumber(bs: seq<u8>)
    ensures LittleEndian(Number(bs), |bs|) == bs
  {
    if bs != [] {
      LittleEndianOfNumber(bs[1..]);
    }
  }

  /** MD5Decode undoes MD5Encode ... */
  lemma {:induction false} WordsOfBytes(ws: seq<u32>)
    ensures WordsOf(BytesOf(ws)) == ws
  {
    if ws != [] {
      WordsOfBytes(ws[1..]);
      assert BytesOf(ws)[..4] == LittleEndian(ws[0], 4) && BytesOf(ws)[4..] == BytesOf(ws[1..]);
      Pow2At32();
      NumberOfLittleEndian(ws[0], 4);
    }
  }

  /** ... and the other way round. */
  lemma {:induction false} BytesOfWords(bs: seq<u8>)
    requires |bs| % 4 == 0
    ensures BytesOf(WordsOf(bs)) == bs
  {
    if bs != [] {
      BytesOfWords(bs[4..]);
      LittleEndianOfNumber(bs[..4]);
      assert WordsOf(bs)[1..] == WordsOf(bs[4..]);
    }
  }

  /** A 64-bit number kept in two words, low word first. */
  lemma LittleEndianPair(lo: u32, hi: u32)
    ensures LittleEndian(lo + 0x1_0000_0000 * hi, 8) == BytesOf([lo, hi])
  {
    Pow2At32();
    LittleEndianSplit(lo, hi, 4);
    assert LittleEndian(lo, 4) + LittleEndian(hi, 4) == BytesOf([lo, hi]) by {
      assert [lo, hi][1..] == [hi] && [hi][1..] == [];
      assert BytesOf([hi]) == LittleEndian(hi, 4) + BytesOf([]);
    }
  }

  lemma LittleEndianStep(lo: nat, t: nat, k: nat)
    requires k > 0
    ensures LittleEndian(lo + 256 * t, k) == [lo % 256] + LittleEndian(lo / 256 + t, k - 1)
  {
    assert (lo + 256 * t) % 256 == lo % 256 && (lo + 256 * t) / 256 == lo / 256 + t;
  }

  lemma OneByteMore(k: nat, hi: nat)
    requires k > 0
    ensures Pow2(8 * k) == 256 * Pow2(8 * (k - 1))
    ensures Pow2(8 * k) * hi == 256 * (Pow2(8 * (k - 1)) * hi)
  {
    hide Pow2;
    Pow2Add(8, 8 * (k - 1));
    EightBits();
    Times256(Pow2(8 * (k - 1)), hi);
  }

  lemma EightBits()
    ensures Pow2(8) == 256
  {
  }

  lemma Times256(p: nat, hi: nat)
    ensures (256 * p) * hi == 256 * (p * hi)
  {
  }

  lemma {:induction false} LittleEndianSplit(lo: nat, hi: nat, k: nat)
    requires lo < Pow2(8 * k)
    ensures LittleEndian(lo + Pow2(8 * k) * hi, k + 4) == LittleEndian(lo, k) + LittleEndian(hi, 4)
  {
    if k > 0 {
      hide LittleEndian, Pow2;
      var t := Pow2(8 * (k - 1)) * hi;
      OneByteMore(k, hi);
      LittleEndianSplit(lo / 256, hi, k - 1);
      SplitStep(lo, t, hi, k);
    }
  }

  lemma SplitStep(lo: nat, t: nat, hi: nat, k: nat)
    requires k > 0 && LittleEndian(lo / 256 + t, k + 3) == LittleEndian(lo / 256, k - 1) + LittleEndian(hi, 4)
    ensures LittleEndian(lo + 256 * t, k + 4) == LittleEndian(lo, k) + LittleEndian(hi, 4)
  {
    LittleEndianStep(lo, t, k + 4);
  }

  // ---------------------------------------------------------------- the block step

  datatype Regs = Regs(a: u32, b: u32, c: u32, d: u32)

  /** The word of the block that each step uses. */
  function Index(i: nat): (k: nat)
    ensures k < 16
  {
    (if i < 16 then i else if i < 32 then 1 + 5 * i else if i < 48 then 5 + 3 * i else 7 * i) % 16
  }

  function Shift(i: nat): (s: nat)
    ensures 0 < s < 32
  {
    if i < 16 then (if i % 4 == 0 then 7 else if i % 4 == 1 then 12 else if i % 4 == 2 then 17 else 22)
    else if i < 32 then (if i % 4 == 0 then 5 else if i % 4 == 1 then 9 else if i % 4 == 2 then 14 else 20)
    else if i < 48 then (if i % 4 == 0 then 4 else if i % 4 == 1 then 11 else if i % 4 == 2 then 16 else 23)
    else (if i % 4 == 0 then 6 else if i % 4 == 1 then 10 else if i % 4 == 2 then 15 else 21)
  }

  /** The integer part of 2^32 times abs(sin(i + 1)), in radians. */
  function Sine(i: nat): u32 {
    if i < 16 then Sine1(i) else if i < 32 then Sine2(i) else if i < 48 then Sine3(i) else Sine4(i)
  }

  function Sine1(i: nat): u32 {
    if i < 4 then
      (if i == 0 then 0xD76A_A478 else if i == 1 then 0xE8C7_B756 else if i == 2 then 0x2420_70DB else 0xC1BD_CEEE)
    else if i < 8 then
      (if i == 4 then 0xF57C_0FAF else if i == 5 then 0x4787_C62A else if i == 6 then 0xA830_4613 else 0xFD46_9501)
    else if i < 12 then
      (if i == 8 then 0x6980_98D8 else if i == 9 then 0x8B44_F7AF else if i == 10 then 0xFFFF_5BB1 else 0x895C_D7BE)
    else
      (if i == 12 then 0x6B90_1122 else if i == 13 then 0xFD98_7193 else if i == 14 then 0xA679_438E else 0x49B4_0821)
  }

  function Sine2(i: nat): u32 {
    if i < 20 then
      (if i == 16 then 0xF61E_2562 else if i == 17 then 0xC040_B340 else if i == 18 then 0x265E_5A51 else 0xE9B6_C7AA)
    else if i < 24 then
      (if i == 20 then 0xD62F_105D else if i == 21 then 0x0244_1453 else if i == 22 then 0xD8A1_E681 else 0xE7D3_FBC8)
    else if i < 28 then
      (if i == 24 then 0x21E1_CDE6 else if i == 25 then 0xC337_07D6 else if i == 26 then 0xF4D5_0D87 else 0x455A_14ED)
    else
      (if i == 28 then 0xA9E3_E905 else if i == 29 then 0xFCEF_A3F8 else if i == 30 then 0x676F_02D9 else 0x8D2A_4C8A)
  }

  function Sine3(i: nat): u32 {
    if i < 36 then
      (if i == 32 then 0xFFFA_3942 else if i == 33 then 0x8771_F681 else if i == 34 then 0x6D9D_6122 else 0xFDE5_380C)
    else if i < 40 then
      (if i == 36 then 0xA4BE_EA44 else if i == 37 then 0x4BDE_CFA9 else if i == 38 then 0xF6BB_4B60 else 0xBEBF_BC70)
    else if i < 44 then
      (if i == 40 then 0x289B_7EC6 else if i == 41 then 0xEAA1_27FA else if i == 42 then 0xD4EF_3085 else 0x0488_1D05)
    else
      (if i == 44 then 0xD9D4_D039 else if i == 45 then 0xE6DB_99E5 else if i == 46 then 0x1FA2_7CF8 else 0xC4AC_5665)
  }

  function Sine4(i: nat): u32 {
    if i < 52 then
      (if i == 48 then 0xF429_2244 else if i == 49 then 0x432A_FF97 else if i == 50 then 0xAB94_23A7 else 0xFC93_A039)
    else if i < 56 then
      (if i == 52 then 0x655B_59C3 else if i == 53 then 0x8F0C_CC92 else if i == 54 then 0xFFEF_F47D else 0x8584_5DD1)
    else if i < 60 then
      (if i == 56 then 0x6FA8_7E4F else if i == 57 then 0xFE2C_E6E0 else if i == 58 then 0xA301_4314 else 0x4E08_11A1)
    else
      (if i == 60 then 0xF753_7E82 else if i == 61 then 0xBD3A_F235 else if i == 62 then 0x2AD7_D2BB else 0xEB86_D391)
  }

  function Mix(i: nat, x: u32, y: u32, z: u32): u32 {
    if i < 16 then F(x, y, z) else if i < 32 then G(x, y, z) else if i < 48 then H(x, y, z) else I(x, y, z)
  }

  /** a = b + ((a + mixed + word + constant) <<< s) */
  function Turn(a: u32, b: u32, mixed: u32, word: u32, s: nat, constant: u32): u32
    requires 0 < s < 32
  {
    Wrap32(RotateLeft(Wrap32(a + mixed + word + constant), s) + b)
  }

  /** What step `i` puts into the register whose turn it is. */
  function NewWord(i: nat, r: Regs, x: seq<u32>): u32
    requires |x| == 16
  {
    Turn(r.a, r.b, Mix(i, r.b, r.c, r.d), x[Index(i)], Shift(i), Sine(i))
  }

  function Schedule(x: seq<u32>): (nat, Regs) -> u32
    requires |x| == 16
  {
    (i, r) => NewWord(i, r, x)
  }

  /** The first `n` steps; after each the registers change roles. */
  function Steps(word: (nat, Regs) -> u32, n: nat, r: Regs): Regs {
    if n == 0 then r else
      var q := Steps(word, n - 1, r);
      Regs(q.d, word(n - 1, q), q.b, q.c)
  }

  function AllSteps(r: Regs, x: seq<u32>): Regs
    requires |x| == 16
  {
    Steps(Schedule(x), 4 * |x|, r)
  }

  function Plus(r: Regs, s: Regs): Regs {
    Regs(Wrap32(r.a + s.a), Wrap32(r.b + s.b), Wrap32(r.c + s.c), Wrap32(r.d + s.d))
  }

  // ---------------------------------------------------------------- the message

  const INITIAL := Regs(0x6745_2301, 0xEFCD_AB89, 0x98BA_DCFE, 0x1032_5476)

  /** The registers after a block: four rounds, each of one step for every word. */
  function Compress(r: Regs, block: seq<u8>): Regs {
    if |block| != 64 then r else Plus(r, AllSteps(r, WordsOf(block)))
  }

  /** The 64-byte blocks of a message, folded from the left; an incomplete block at the end is left
      alone. */
  function FoldBlocks<S>(f: (S, seq<u8>) -> S, r: S, m: seq<u8>): S
    decreases |m|
  {
    if |m| < 64 then r else FoldBlocks(f, f(r, m[..64]), m[64..])
  }

  lemma {:induction false} FoldAppend<S>(f: (S, seq<u8>) -> S, r: S, m: seq<u8>, n: seq<u8>)
    requires |m| % 64 == 0
    ensures FoldBlocks(f, r, m + n) == FoldBlocks(f, FoldBlocks(f, r, m), n)
    decreases |m|
  {
    if |m| == 0 {
      assert m + n == n;
    } else {
      assert (m + n)[..64] == m[..64] && (m + n)[64..] == m[64..] + n;
      FoldAppend(f, f(r, m[..64]), m[64..], n);
    }
  }

  /** Padding takes 1 to 64 bytes, up to 8 bytes short of a whole block. */
  function PadLength(n: nat): (p: nat)
    ensures 1 <= p <= 64 && (n + p) % 64 == 56
  {
    1 + (55 - n) % 64
  }

  lemma PadLengthWhole(n: nat)
    ensures (n + PadLength(n) + 8) % 64 == 0
  {
  }

  function Padding(n: nat): (r: seq<u8>)
    requires n > 0
    ensures |r| == n
  {
    [0x80] + Zeros(n - 1)
  }

  function Padded(m: seq<u8>): (r: seq<u8>)
    ensures |r| % 64 == 0
  {
    PadLengthWhole(|m|);
    m + Padding(PadLength(|m|)) + LittleEndian((8 * |m|) % 0x1_0000_0000_0000_0000, 8)
  }

  function Digest(m: seq<u8>): (r: seq<u8>)
    ensures |r| == 16
  {
    var r := FoldBlocks(Compress, INITIAL, Padded(m));
    BytesOf([r.a, r.b, r.c, r.d])
  }
}
