/** The block function of MD5: decoding into words, 64 steps written out, and encoding. */
module Md5Block {
  import opened Words
  import opened Md5Bits
  import opened Md5Spec

  // ---------------------------------------------------------------- MD5Encode and MD5Decode

  function LowByte(x: nat): (r: u8)
    ensures r == x % 0x100
  {
    assert Pow2(8) == 0x100;
    AndMask(x, 8);
    And(x, 0xFF)
  }

  lemma FourBytes(w: u32)
    ensures LittleEndian(w, 4) == [w % 0x100, w / 0x100 % 0x100, w / 0x1_0000 % 0x100, w / 0x100_0000 % 0x100]
  {
    assert w / 0x100 / 0x100 == w / 0x1_0000 && w / 0x1_0000 / 0x100 == w / 0x100_0000;
    assert LittleEndian(w / 0x100_0000, 1) == [w / 0x100_0000 % 0x100];
    assert LittleEndian(w / 0x1_0000, 2) == [w / 0x1_0000 % 0x100, w / 0x100_0000 % 0x100];
    assert LittleEndian(w / 0x100, 3) == [w / 0x100 % 0x100, w / 0x1_0000 % 0x100, w / 0x100_0000 % 0x100];
  }

  lemma {:induction false} BytesAppend(ws: seq<u32>, w: u32)
    ensures BytesOf(ws + [w]) == BytesOf(ws) + LittleEndian(w, 4)
  {
    hide LittleEndian;
    if ws == [] {
      assert ws + [w] == [w] && [w][1..] == [];
    } else {
      BytesAppend(ws[1..], w);
      assert (ws + [w])[1..] == ws[1..] + [w];
    }
  }

  method Encode(output: array<u8>, input: seq<u32>, len: nat)
    requires len == 4 * |input| && output.Length == len
    modifies output
    ensures output[..] == BytesOf(input)
  {
    hide BytesOf, LittleEndian, LowByte;
    var i, j := 0, 0;
    assert input[..0] == [];
    while j < len
      invariant i <= |input| && j == 4 * i
      invariant output[..j] == BytesOf(input[..i])
    {
      FourBytes(input[i]);
      BytesAppend(input[..i], input[i]);
      assert input[..i + 1] == input[..i] + [input[i]];
      ghost var done := output[..j];
      output[j], output[j + 1], output[j + 2], output[j + 3] :=
        LowByte(input[i]), LowByte(input[i] / 0x100), LowByte(input[i] / 0x1_0000), LowByte(input[i] / 0x100_0000);
      assert output[..j] == done;
      assert output[..j + 4] == done + LittleEndian(input[i], 4);
      i, j := i + 1, j + 4;
    }
    assert input[..i] == input && output[..j] == output[..];
  }

  function JoinBytes(b0: u8, b1: u8, b2: u8, b3: u8): (r: u32)
    ensures r == Number([b0, b1, b2, b3])
  {
    JoinAdds(b0, b1, b2, b3);
    NumberOf4([b0, b1, b2, b3]);
    Or(Or(Or(b0, (b1 as int) * 0x100), (b2 as int) * 0x1_0000), (b3 as int) * 0x100_0000)
  }

  lemma JoinOne(x: nat, b: nat, k: nat, p: nat)
    requires p == Pow2(k) && x < p
    ensures Or(x, b * p) == x + b * p
  {
    OrAdds(x, b, k);
  }

  lemma JoinAdds(b0: nat, b1: nat, b2: nat, b3: nat)
    requires b0 < 0x100 && b1 < 0x100 && b2 < 0x100 && b3 < 0x100
    ensures Or(Or(Or(b0, b1 * 0x100), b2 * 0x1_0000), b3 * 0x100_0000)
            == b0 + b1 * 0x100 + b2 * 0x1_0000 + b3 * 0x100_0000
  {
    JoinOne(b0, b1, 8, 0x100);
    JoinOne(b0 + b1 * 0x100, b2, 16, 0x1_0000);
    JoinOne(b0 + b1 * 0x100 + b2 * 0x1_0000, b3, 24, 0x100_0000);
  }

  lemma {:induction false} WordsAppend(bs: seq<u8>, last: seq<u8>)
    requires |bs| % 4 == 0 && |last| == 4
    ensures WordsOf(bs + last) == WordsOf(bs) + [Number(last)]
    decreases |bs|
  {
    if bs == [] {
      assert bs + last == last && last[..4] == last && last[4..] == [];
    } else {
      WordsAppend(bs[4..], last);
      assert (bs + last)[..4] == bs[..4] && (bs + last)[4..] == bs[4..] + last;
    }
  }

  method Decode(output: array<u32>, input: seq<u8>, len: nat)
    requires len == |input| && len % 4 == 0 && output.Length >= len / 4
    modifies output
    ensures output[..len / 4] == WordsOf(input)
  {
    hide Or, WordsOf;
    var i, j := 0, 0;
    assert input[..0] == [];
    while j < len
      invariant j <= len && j == 4 * i
      invariant output[..i] == WordsOf(input[..j])
    {
      WordsAppend(input[..j], input[j..j + 4]);
      assert input[j..j + 4] == [input[j], input[j + 1], input[j + 2], input[j + 3]];
      assert input[..j + 4] == input[..j] + input[j..j + 4];
      NumberOf4(input[j..j + 4]);
      ghost var done := output[..i];
      output[i] := JoinBytes(input[j], input[j + 1], input[j + 2], input[j + 3]);
      assert output[..i + 1] == done + [output[i]];
      i, j := i + 1, j + 4;
    }
    assert input[..j] == input;
  }

  // ---------------------------------------------------------------- MD5Transform

  /** The three assignments of the macros, with every 32-bit sum wrapped where it is formed, put the
      word into the register that RFC 1321 puts there. */
  lemma TurnInSteps(a: u32, b: u32, mixed: u32, x: u32, s: nat, ac: u32)
    requires 0 < s < 32
    ensures Wrap32(RotateLeft(Wrap32(a + Wrap32(Wrap32(mixed + x) + ac)), s) + b) == Turn(a, b, mixed, x, s, ac)
  {
    hide RotateLeft, Wrap32;
    WrapInner(mixed + x, ac);
    WrapInner(mixed + x + ac, a);
  }

  lemma WrapInner(x: nat, y: nat)
    ensures Wrap32(Wrap32(x) + y) == Wrap32(x + y)
  {
  }

  /** FF(a, b, c, d, x, s, ac) as step `i` of the schedule of the words `xs`. */
  method FF(a: u32, b: u32, c: u32, d: u32, x: u32, s: nat, ac: u32,
            ghost i: nat, ghost xs: seq<u32>, ghost word: (nat, Regs) -> u32)
    returns (a': u32)
    requires i < 16
    requires |xs| == 16 && x == xs[Index(i)] && s == Shift(i) && ac == Sine(i) && Follows(word, xs)
    ensures a' == word(i, Regs(a, b, c, d))
  {
    hide F, Or32, And32, Xor32, RotateLeft;
    assert word(i, Regs(a, b, c, d)) == NewWord(i, Regs(a, b, c, d), xs);
    TurnInSteps(a, b, F(b, c, d), x, s, ac);
    a' := Wrap32(a + Wrap32(Wrap32(F(b, c, d) + x) + ac));
    a' := RotateLeft(a', s);
    a' := Wrap32(a' + b);
  }

  /** GG(a, b, c, d, x, s, ac) as step `i` of the schedule of the words `xs`. */
  method GG(a: u32, b: u32, c: u32, d: u32, x: u32, s: nat, ac: u32,
            ghost i: nat, ghost xs: seq<u32>, ghost word: (nat, Regs) -> u32)
    returns (a': u32)
    requires 16 <= i < 32
    requires |xs| == 16 && x == xs[Index(i)] && s == Shift(i) && ac == Sine(i) && Follows(word, xs)
    ensures a' == word(i, Regs(a, b, c, d))
  {
    hide G, Or32, And32, Xor32, RotateLeft;
    assert word(i, Regs(a, b, c, d)) == NewWord(i, Regs(a, b, c, d), xs);
    TurnInSteps(a, b, G(b, c, d), x, s, ac);
    a' := Wrap32(a + Wrap32(Wrap32(G(b, c, d) + x) + ac));
    a' := RotateLeft(a', s);
    a' := Wrap32(a' + b);
  }

  /** HH(a, b, c, d, x, s, ac) as step `i` of the schedule of the words `xs`. */
  method HH(a: u32, b: u32, c: u32, d: u32, x: u32, s: nat, ac: u32,
            ghost i: nat, ghost xs: seq<u32>, ghost word: (nat, Regs) -> u32)
    returns (a': u32)
    requires 32 <= i < 48
    requires |xs| == 16 && x == xs[Index(i)] && s == Shift(i) && ac == Sine(i) && Follows(word, xs)
    ensures a' == word(i, Regs(a, b, c, d))
  {
    hide H, Or32, And32, Xor32, RotateLeft;
    assert word(i, Regs(a, b, c, d)) == NewWord(i, Regs(a, b, c, d), xs);
    TurnInSteps(a, b, H(b, c, d), x, s, ac);
    a' := Wrap32(a + Wrap32(Wrap32(H(b, c, d) + x) + ac));
    a' := RotateLeft(a', s);
    a' := Wrap32(a' + b);
  }

  /** II(a, b, c, d, x, s, ac) as step `i` of the schedule of the words `xs`. */
  method II(a: u32, b: u32, c: u32, d: u32, x: u32, s: nat, ac: u32,
            ghost i: nat, ghost xs: seq<u32>, ghost word: (nat, Regs) -> u32)
    returns (a': u32)
    requires 48 <= i < 64
    requires |xs| == 16 && x == xs[Index(i)] && s == Shift(i) && ac == Sine(i) && Follows(word, xs)
    ensures a' == word(i, Regs(a, b, c, d))
  {
    hide I, Or32, And32, Xor32, RotateLeft;
    assert word(i, Regs(a, b, c, d)) == NewWord(i, Regs(a, b, c, d), xs);
    TurnInSteps(a, b, I(b, c, d), x, s, ac);
    a' := Wrap32(a + Wrap32(Wrap32(I(b, c, d) + x) + ac));
    a' := RotateLeft(a', s);
    a' := Wrap32(a' + b);
  }

  /** `word` gives the new register of every step for the words `xs`. */
  ghost predicate Follows(word: (nat, Regs) -> u32, xs: seq<u32>)
    requires |xs| == 16
  {
    forall i: nat, r: Regs {:trigger NewWord(i, r, xs)} :: word(i, r) == NewWord(i, r, xs)
  }

  lemma FourSteps(word: (nat, Regs) -> u32, n: nat, r0: Regs, a: u32, b: u32, c: u32, d: u32)
    ensures var r := Steps(word, n, r0);
      && a == word(n, r)
      && d == word(n + 1, Regs(r.d, a, r.b, r.c))
      && c == word(n + 2, Regs(r.c, d, a, r.b))
      && b == word(n + 3, Regs(r.b, c, d, a))
      ==> Steps(word, n + 4, r0) == Regs(a, b, c, d)
  {
    var s1 := Steps(word, n + 1, r0);
    var s2 := Steps(word, n + 2, r0);
    var s3 := Steps(word, n + 3, r0);
  }

  method Steps1To8(r: Regs, x: seq<u32>, ghost n: nat, ghost r0: Regs, ghost word: (nat, Regs) -> u32)
    returns (r': Regs)
    requires |x| == 16 && n == 0 && Follows(word, x) && r == Steps(word, n, r0)
    ensures r' == Steps(word, n + 8, r0)
  {
    hide Follows, Steps;
    var a, b, c, d := r.a, r.b, r.c, r.d;
    a := FF(a, b, c, d, x[0], 7, 0xD76A_A478, 0, x, word);
    d := FF(d, a, b, c, x[1], 12, 0xE8C7_B756, 1, x, word);
    c := FF(c, d, a, b, x[2], 17, 0x2420_70DB, 2, x, word);
    b := FF(b, c, d, a, x[3], 22, 0xC1BD_CEEE, 3, x, word);
    FourSteps(word, n, r0, a, b, c, d);
    a := FF(a, b, c, d, x[4], 7, 0xF57C_0FAF, 4, x, word);
    d := FF(d, a, b, c, x[5], 12, 0x4787_C62A, 5, x, word);
    c := FF(c, d, a, b, x[6], 17, 0xA830_4613, 6, x, word);
    b := FF(b, c, d, a, x[7], 22, 0xFD46_9501, 7, x, word);
    FourSteps(word, n + 4, r0, a, b, c, d);
    r' := Regs(a, b, c, d);
  }

  method Steps9To16(r: Regs, x: seq<u32>, ghost n: nat, ghost r0: Regs, ghost word: (nat, Regs) -> u32)
    returns (r': Regs)
    requires |x| == 16 && n == 8 && Follows(word, x) && r == Steps(word, n, r0)
    ensures r' == Steps(word, n + 8, r0)
  {
    hide Follows, Steps;
    var a, b, c, d := r.a, r.b, r.c, r.d;
    a := FF(a, b, c, d, x[8], 7, 0x6980_98D8, 8, x, word);
    d := FF(d, a, b, c, x[9], 12, 0x8B44_F7AF, 9, x, word);
    c := FF(c, d, a, b, x[10], 17, 0xFFFF_5BB1, 10, x, word);
    b := FF(b, c, d, a, x[11], 22, 0x895C_D7BE, 11, x, word);
    FourSteps(word, n, r0, a, b, c, d);
    a := FF(a, b, c, d, x[12], 7, 0x6B90_1122, 12, x, word);
    d := FF(d, a, b, c, x[13], 12, 0xFD98_7193, 13, x, word);
    c := FF(c, d, a, b, x[14], 17, 0xA679_438E, 14, x, word);
    b := FF(b, c, d, a, x[15], 22, 0x49B4_0821, 15, x, word);
    FourSteps(word, n + 4, r0, a, b, c, d);
    r' := Regs(a, b, c, d);
  }

  method Steps17To24(r: Regs, x: seq<u32>, ghost n: nat, ghost r0: Regs, ghost word: (nat, Regs) -> u32)
    returns (r': Regs)
    requires |x| == 16 && n == 16 && Follows(word, x) && r == Steps(word, n, r0)
    ensures r' == Steps(word, n + 8, r0)
  {
    hide Follows, Steps;
    var a, b, c, d := r.a, r.b, r.c, r.d;
    a := GG(a, b, c, d, x[1], 5, 0xF61E_2562, 16, x, word);
    d := GG(d, a, b, c, x[6], 9, 0xC040_B340, 17, x, word);
    c := GG(c, d, a, b, x[11], 14, 0x265E_5A51, 18, x, word);
    b := GG(b, c, d, a, x[0], 20, 0xE9B6_C7AA, 19, x, word);
    FourSteps(word, n, r0, a, b, c, d);
    a := GG(a, b, c, d, x[5], 5, 0xD62F_105D, 20, x, word);
    d := GG(d, a, b, c, x[10], 9, 0x0244_1453, 21, x, word);
    c := GG(c, d, a, b, x[15], 14, 0xD8A1_E681, 22, x, word);
    b := GG(b, c, d, a, x[4], 20, 0xE7D3_FBC8, 23, x, word);
    FourSteps(word, n + 4, r0, a, b, c, d);
    r' := Regs(a, b, c, d);
  }

  method Steps25To32(r: Regs, x: seq<u32>, ghost n: nat, ghost r0: Regs, ghost word: (nat, Regs) -> u32)
    returns (r': Regs)
    requires |x| == 16 && n == 24 && Follows(word, x) && r == Steps(word, n, r0)
    ensures r' == Steps(word, n + 8, r0)
  {
    hide Follows, Steps;
    var a, b, c, d := r.a, r.b, r.c, r.d;
    a := GG(a, b, c, d, x[9], 5, 0x21E1_CDE6, 24, x, word);
    d := GG(d, a, b, c, x[14], 9, 0xC337_07D6, 25, x, word);
    c := GG(c, d, a, b, x[3], 14, 0xF4D5_0D87, 26, x, word);
    b := GG(b, c, d, a, x[8], 20, 0x455A_14ED, 27, x, word);
    FourSteps(word, n, r0, a, b, c, d);
    a := GG(a, b, c, d, x[13], 5, 0xA9E3_E905, 28, x, word);
    d := GG(d, a, b, c, x[2], 9, 0xFCEF_A3F8, 29, x, word);
    c := GG(c, d, a, b, x[7], 14, 0x676F_02D9, 30, x, word);
    b := GG(b, c, d, a, x[12], 20, 0x8D2A_4C8A, 31, x, word);
    FourSteps(word, n + 4, r0, a, b, c, d);
    r' := Regs(a, b, c, d);
  }

  method Steps33To40(r: Regs, x: seq<u32>, ghost n: nat, ghost r0: Regs, ghost word: (nat, Regs) -> u32)
    returns (r': Regs)
    requires |x| == 16 && n == 32 && Follows(word, x) && r == Steps(word, n, r0)
    ensures r' == Steps(word, n + 8, r0)
  {
    hide Follows, Steps;
    var a, b, c, d := r.a, r.b, r.c, r.d;
    a := HH(a, b, c, d, x[5], 4, 0xFFFA_3942, 32, x, word);
    d := HH(d, a, b, c, x[8], 11, 0x8771_F681, 33, x, word);
    c := HH(c, d, a, b, x[11], 16, 0x6D9D_6122, 34, x, word);
    b := HH(b, c, d, a, x[14], 23, 0xFDE5_380C, 35, x, word);
    FourSteps(word, n, r0, a, b, c, d);
    a := HH(a, b, c, d, x[1], 4, 0xA4BE_EA44, 36, x, word);
    d := HH(d, a, b, c, x[4], 11, 0x4BDE_CFA9, 37, x, word);
    c := HH(c, d, a, b, x[7], 16, 0xF6BB_4B60, 38, x, word);
    b := HH(b, c, d, a, x[10], 23, 0xBEBF_BC70, 39, x, word);
    FourSteps(word, n + 4, r0, a, b, c, d);
    r' := Regs(a, b, c, d);
  }

  method Steps41To48(r: Regs, x: seq<u32>, ghost n: nat, ghost r0: Regs, ghost word: (nat, Regs) -> u32)
    returns (r': Regs)
    requires |x| == 16 && n == 40 && Follows(word, x) && r == Steps(word, n, r0)
    ensures r' == Steps(word, n + 8, r0)
  {
    hide Follows, Steps;
    var a, b, c, d := r.a, r.b, r.c, r.d;
    a := HH(a, b, c, d, x[13], 4, 0x289B_7EC6, 40, x, word);
    d := HH(d, a, b, c, x[0], 11, 0xEAA1_27FA, 41, x, word);
    c := HH(c, d, a, b, x[3], 16, 0xD4EF_3085, 42, x, word);
    b := HH(b, c, d, a, x[6], 23, 0x0488_1D05, 43, x, word);
    FourSteps(word, n, r0, a, b, c, d);
    a := HH(a, b, c, d, x[9], 4, 0xD9D4_D039, 44, x, word);
    d := HH(d, a, b, c, x[12], 11, 0xE6DB_99E5, 45, x, word);
    c := HH(c, d, a, b, x[15], 16, 0x1FA2_7CF8, 46, x, word);
    b := HH(b, c, d, a, x[2], 23, 0xC4AC_5665, 47, x, word);
    FourSteps(word, n + 4, r0, a, b, c, d);
    r' := Regs(a, b, c, d);
  }

  method Steps49To56(r: Regs, x: seq<u32>, ghost n: nat, ghost r0: Regs, ghost word: (nat, Regs) -> u32)
    returns (r': Regs)
    requires |x| == 16 && n == 48 && Follows(word, x) && r == Steps(word, n, r0)
    ensures r' == Steps(word, n + 8, r0)
  {
    hide Follows, Steps;
    var a, b, c, d := r.a, r.b, r.c, r.d;
    a := II(a, b, c, d, x[0], 6, 0xF429_2244, 48, x, word);
    d := II(d, a, b, c, x[7], 10, 0x432A_FF97, 49, x, word);
    c := II(c, d, a, b, x[14], 15, 0xAB94_23A7, 50, x, word);
    b := II(b, c, d, a, x[5], 21, 0xFC93_A039, 51, x, word);
    FourSteps(word, n, r0, a, b, c, d);
    a := II(a, b, c, d, x[12], 6, 0x655B_59C3, 52, x, word);
    d := II(d, a, b, c, x[3], 10, 0x8F0C_CC92, 53, x, word);
    c := II(c, d, a, b, x[10], 15, 0xFFEF_F47D, 54, x, word);
    b := II(b, c, d, a, x[1], 21, 0x8584_5DD1, 55, x, word);
    FourSteps(word, n + 4, r0, a, b, c, d);
    r' := Regs(a, b, c, d);
  }

  method Steps57To64(r: Regs, x: seq<u32>, ghost n: nat, ghost r0: Regs, ghost word: (nat, Regs) -> u32)
    returns (r': Regs)
    requires |x| == 16 && n == 56 && Follows(word, x) && r == Steps(word, n, r0)
    ensures r' == Steps(word, n + 8, r0)
  {
    hide Follows, Steps;
    var a, b, c, d := r.a, r.b, r.c, r.d;
    a := II(a, b, c, d, x[8], 6, 0x6FA8_7E4F, 56, x, word);
    d := II(d, a, b, c, x[15], 10, 0xFE2C_E6E0, 57, x, word);
    c := II(c, d, a, b, x[6], 15, 0xA301_4314, 58, x, word);
    b := II(b, c, d, a, x[13], 21, 0x4E08_11A1, 59, x, word);
    FourSteps(word, n, r0, a, b, c, d);
    a := II(a, b, c, d, x[4], 6, 0xF753_7E82, 60, x, word);
    d := II(d, a, b, c, x[11], 10, 0xBD3A_F235, 61, x, word);
    c := II(c, d, a, b, x[2], 15, 0x2AD7_D2BB, 62, x, word);
    b := II(b, c, d, a, x[9], 21, 0xEB86_D391, 63, x, word);
    FourSteps(word, n + 4, r0, a, b, c, d);
    r' := Regs(a, b, c, d);
  }

  ghost function StateOf(state: array<u32>): Regs
    requires state.Length == 4
    reads state
  {
    Regs(state[0], state[1], state[2], state[3])
  }

  method SixtyFourSteps(r0: Regs, x: seq<u32>, ghost word: (nat, Regs) -> u32) returns (r: Regs)
    requires |x| == 16 && Follows(word, x)
    ensures r == Steps(word, 4 * |x|, r0)
  {
    ghost var n := 0;
    r := r0;
    r := Steps1To8(r, x, n, r0, word);
    r := Steps9To16(r, x, n + 8, r0, word);
    r := Steps17To24(r, x, n + 16, r0, word);
    r := Steps25To32(r, x, n + 24, r0, word);
    r := Steps33To40(r, x, n + 32, r0, word);
    r := Steps41To48(r, x, n + 40, r0, word);
    r := Steps49To56(r, x, n + 48, r0, word);
    r := Steps57To64(r, x, n + 56, r0, word);
  }

  lemma ScheduleFollows(x: seq<u32>)
    requires |x| == 16
    ensures Follows(Schedule(x), x)
  {
  }

  method Mixed(r0: Regs, x: seq<u32>) returns (r: Regs)
    requires |x| == 16
    ensures r == Plus(r0, AllSteps(r0, x))
  {
    ScheduleFollows(x);
    r := SixtyFourSteps(r0, x, Schedule(x));
    r := Plus(r0, r);
  }

  method Transform(state: array<u32>, block: seq<u8>)
    requires state.Length == 4 && |block| == 64
    modifies state
    ensures StateOf(state) == Compress(old(StateOf(state)), block)
  {
    var x := new u32[64];
    Decode(x, block, 64);
    var r := Mixed(Regs(state[0], state[1], state[2], state[3]), x[..16]);
    state[0], state[1], state[2], state[3] := r.a, r.b, r.c, r.d;
  }
}
