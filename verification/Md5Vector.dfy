/** The digest of "abc" that the MD5 test suite states (RFC 1321, section A.5), computed step by step
    from the definition. */
module Md5Vector {
  import opened MachineWords
  import opened Md5Bits
  import opened Md5Spec
  import opened Sequences
  import opened Words

  // ---------------------------------------------------------------- one step on machine words

  function FW(x: W, y: W, z: W): W {
    (x & y) | (!x & z)
  }

  function GW(x: W, y: W, z: W): W {
    (x & z) | (y & !z)
  }

  function HW(x: W, y: W, z: W): W {
    XorW(XorW(x, y), z)
  }

  function IW(x: W, y: W, z: W): W {
    y ^ (x | !z)
  }

  function MixW(i: nat, x: W, y: W, z: W): W {
    if i < 16 then FW(x, y, z) else if i < 32 then GW(x, y, z) else if i < 48 then HW(x, y, z) else IW(x, y, z)
  }

  function ShiftW(i: nat): (k: bv6)
    ensures 0 < k < 32
  {
    if i < 16 then (if i % 4 == 0 then 7 else if i % 4 == 1 then 12 else if i % 4 == 2 then 17 else 22)
    else if i < 32 then (if i % 4 == 0 then 5 else if i % 4 == 1 then 9 else if i % 4 == 2 then 14 else 20)
    else if i < 48 then (if i % 4 == 0 then 4 else if i % 4 == 1 then 11 else if i % 4 == 2 then 16 else 23)
    else (if i % 4 == 0 then 6 else if i % 4 == 1 then 10 else if i % 4 == 2 then 15 else 21)
  }

  function SumW(i: nat, a: W, d: W, c: W, b: W, word: W, sine: W): W {
    AddW(AddW(AddW(a, MixW(i, b, c, d)), word), sine)
  }

  function TurnW(i: nat, a: W, d: W, c: W, b: W, word: W, sine: W): W {
    var q, k := SumW(i, a, d, c, b, word, sine), ShiftW(i);
    AddW((q << k) | (q >> (32 - k)), b)
  }

  lemma FWIs(x: W, y: W, z: W)
    ensures FW(x, y, z) == OrW(AndW(x, y), AndW(NotW(x), z))
  {
  }

  lemma GWIs(x: W, y: W, z: W)
    ensures GW(x, y, z) == OrW(AndW(x, z), AndW(y, NotW(z)))
  {
  }

  lemma IWIs(x: W, y: W, z: W)
    ensures IW(x, y, z) == XorW(y, OrW(x, NotW(z)))
  {
  }

  lemma ValMix(i: nat, x: W, y: W, z: W)
    ensures Val(MixW(i, x, y, z)) == Mix(i, Val(x), Val(y), Val(z))
  {
    hide FW, GW, IW, AndW, OrW, XorW, NotW, And32, Or32, Xor32, Not32, Val;
    ValNot(x);
    ValNot(z);
    if i < 16 {
      FWIs(x, y, z);
      ValOperators(x, y);
      ValOperators(NotW(x), z);
      ValOperators(AndW(x, y), AndW(NotW(x), z));
    } else if i < 32 {
      GWIs(x, y, z);
      ValOperators(x, z);
      ValOperators(y, NotW(z));
      ValOperators(AndW(x, z), AndW(y, NotW(z)));
    } else if i < 48 {
      ValOperators(x, y);
      ValOperators(XorW(x, y), z);
    } else {
      IWIs(x, y, z);
      ValOperators(x, NotW(z));
      ValOperators(y, OrW(x, NotW(z)));
    }
  }

  lemma ShiftIs(i: nat)
    ensures ShiftW(i) as nat == Shift(i)
  {
  }

  lemma ValSum(i: nat, a: W, d: W, c: W, b: W, word: W, sine: W)
    ensures Val(SumW(i, a, d, c, b, word, sine))
            == Wrap32(Val(a) + Mix(i, Val(b), Val(c), Val(d)) + Val(word) + Val(sine))
  {
    hide Val, Mix, MixW, AddW;
    var m := MixW(i, b, c, d);
    ValMix(i, b, c, d);
    ValAdd(a, m);
    ValAdd(AddW(a, m), word);
    ValAdd(AddW(AddW(a, m), word), sine);
    WrapSum(Val(a) + Val(m), Val(word), Val(sine));
  }

  lemma WrapSum(x: nat, y: nat, z: nat)
    ensures Wrap32(Wrap32(Wrap32(x) + y) + z) == Wrap32(x + y + z)
  {
  }

  lemma Rotation(q: W, k: bv6)
    requires 0 < k < 32
    ensures (q << k) | (q >> (32 - k)) == OrW(Up(q, k), Down(q, 32 - k))
  {
  }

  /** On the numbers of the words it is the step of the schedule. */
  lemma ValTurn(i: nat, a: W, d: W, c: W, b: W, word: W, sine: W, x: seq<u32>)
    requires |x| == 16 && Val(word) == x[Index(i)] && Val(sine) == Sine(i)
    ensures Val(TurnW(i, a, d, c, b, word, sine)) == NewWord(i, Regs(Val(a), Val(b), Val(c), Val(d)), x)
  {
    hide Val, Mix, MixW, AddW, OrW, Up, Down, Index, Shift, ShiftW, Sine, Rotate, RotateLeft, SumW, Wrap32;
    var q := SumW(i, a, d, c, b, word, sine);
    ShiftIs(i);
    Rotation(q, ShiftW(i));
    ValSum(i, a, d, c, b, word, sine);
    RotateIs(q, Shift(i), ShiftW(i));
    ValRotate(q, Shift(i));
    ValAdd(Rotate(q, Shift(i)), b);
  }

  // ---------------------------------------------------------------- the message "abc"

  /** The words of the padded message: the letters and the first bit of padding, zeros, and the number
      of bits. */
  function Letters(i: nat): W {
    if i == 0 then 0x8063_6261 else if i == 14 then 24 else 0
  }

  function ZeroWords(n: nat): (x: seq<u32>)
    ensures |x| == n && forall i :: 0 <= i < n ==> x[i] == 0
  {
    if n == 0 then [] else [0] + ZeroWords(n - 1)
  }

  function Block(): (x: seq<u32>)
    ensures |x| == 16
  {
    [0x8063_6261] + (ZeroWords(13) + [24, 0])
  }

  lemma ValLetters(i: nat)
    requires i < 16
    ensures Val(Letters(i)) == Block()[i]
  {
    hide Val;
    ValBytes(0x8063_6261);
    ValBytes(24);
    ValBytes(0);
  }

  /** The registers after `n` steps, the one whose turn it is first. */
  predicate Reached(n: nat, a: W, d: W, c: W, b: W) {
    Steps(Schedule(Block()), n, INITIAL) == Regs(Val(a), Val(b), Val(c), Val(d))
  }

  /** One more step puts `e` into the register. */
  lemma Took(n: nat, a: W, d: W, c: W, b: W, e: W, sine: W)
    requires Reached(n, a, d, c, b) && TurnW(n, a, d, c, b, Letters(Index(n)), sine) == e && Value(sine) == Sine(n)
    ensures Reached(n + 1, d, c, b, e)
  {
    hide Val, Value, TurnW, NewWord, Index, Letters, Sine;
    ValLetters(Index(n));
    ValBytes(sine);
    ValTurn(n, a, d, c, b, Letters(Index(n)), sine, Block());
  }

  lemma Start()
    ensures Reached(0, 0x6745_2301, 0x1032_5476, 0x98BA_DCFE, 0xEFCD_AB89)
  {
    hide Val;
    ValBytes(0x6745_2301);
    ValBytes(0x1032_5476);
    ValBytes(0x98BA_DCFE);
    ValBytes(0xEFCD_AB89);
  }

  lemma Steps1To4()
    requires Reached(0, 0x6745_2301, 0x1032_5476, 0x98BA_DCFE, 0xEFCD_AB89)
    ensures Reached(4, 0xD6D1_17B4, 0x344A_8432, 0x2F6F_BD72, 0x7AD9_56F2)
  {
    hide Reached;
    Took(0, 0x6745_2301, 0x1032_5476, 0x98BA_DCFE, 0xEFCD_AB89, 0xD6D1_17B4, 0xD76A_A478);
    Took(1, 0x1032_5476, 0x98BA_DCFE, 0xEFCD_AB89, 0xD6D1_17B4, 0x344A_8432, 0xE8C7_B756);
    Took(2, 0x98BA_DCFE, 0xEFCD_AB89, 0xD6D1_17B4, 0x344A_8432, 0x2F6F_BD72, 0x2420_70DB);
    Took(3, 0xEFCD_AB89, 0xD6D1_17B4, 0x344A_8432, 0x2F6F_BD72, 0x7AD9_56F2, 0xC1BD_CEEE);
  }

  lemma Steps5To8()
    requires Reached(4, 0xD6D1_17B4, 0x344A_8432, 0x2F6F_BD72, 0x7AD9_56F2)
    ensures Reached(8, 0xC737_41EF, 0x8BAC_3051, 0x207D_C67B, 0x928D_99F6)
  {
    hide Reached;
    Took(4, 0xD6D1_17B4, 0x344A_8432, 0x2F6F_BD72, 0x7AD9_56F2, 0xC737_41EF, 0xF57C_0FAF);
    Took(5, 0x344A_8432, 0x2F6F_BD72, 0x7AD9_56F2, 0xC737_41EF, 0x8BAC_3051, 0x4787_C62A);
    Took(6, 0x2F6F_BD72, 0x7AD9_56F2, 0xC737_41EF, 0x8BAC_3051, 0x207D_C67B, 0xA830_4613);
    Took(7, 0x7AD9_56F2, 0xC737_41EF, 0x8BAC_3051, 0x207D_C67B, 0x928D_99F6, 0xFD46_9501);
  }

  lemma Steps9To12()
    requires Reached(8, 0xC737_41EF, 0x8BAC_3051, 0x207D_C67B, 0x928D_99F6)
    ensures Reached(12, 0x854B_3712, 0x74E2_F284, 0x3020_401C, 0x5ED4_9596)
  {
    hide Reached;
    Took(8, 0xC737_41EF, 0x8BAC_3051, 0x207D_C67B, 0x928D_99F6, 0x854B_3712, 0x6980_98D8);
    Took(9, 0x8BAC_3051, 0x207D_C67B, 0x928D_99F6, 0x854B_3712, 0x74E2_F284, 0x8B44_F7AF);
    Took(10, 0x207D_C67B, 0x928D_99F6, 0x854B_3712, 0x74E2_F284, 0x3020_401C, 0xFFFF_5BB1);
    Took(11, 0x928D_99F6, 0x854B_3712, 0x74E2_F284, 0x3020_401C, 0x5ED4_9596, 0x895C_D7BE);
  }

  lemma Steps13To16()
    requires Reached(12, 0x854B_3712, 0x74E2_F284, 0x3020_401C, 0x5ED4_9596)
    ensures Reached(16, 0xDDA9_B9A6, 0xA105_1895, 0xE396_856B, 0x72AF_F2E0)
  {
    hide Reached;
    Took(12, 0x854B_3712, 0x74E2_F284, 0x3020_401C, 0x5ED4_9596, 0xDDA9_B9A6, 0x6B90_1122);
    Took(13, 0x74E2_F284, 0x3020_401C, 0x5ED4_9596, 0xDDA9_B9A6, 0xA105_1895, 0xFD98_7193);
    Took(14, 0x3020_401C, 0x5ED4_9596, 0xDDA9_B9A6, 0xA105_1895, 0xE396_856B, 0xA679_438E);
    Took(15, 0x5ED4_9596, 0xDDA9_B9A6, 0xA105_1895, 0xE396_856B, 0x72AF_F2E0, 0x49B4_0821);
  }

  lemma Steps17To20()
    requires Reached(16, 0xDDA9_B9A6, 0xA105_1895, 0xE396_856B, 0x72AF_F2E0)
    ensures Reached(20, 0x3E9E_9126, 0x4A1D_804E, 0xE25E_1652, 0xB5B2_04E4)
  {
    hide Reached;
    Took(16, 0xDDA9_B9A6, 0xA105_1895, 0xE396_856B, 0x72AF_F2E0, 0x3E9E_9126, 0xF61E_2562);
    Took(17, 0xA105_1895, 0xE396_856B, 0x72AF_F2E0, 0x3E9E_9126, 0x4A1D_804E, 0xC040_B340);
    Took(18, 0xE396_856B, 0x72AF_F2E0, 0x3E9E_9126, 0x4A1D_804E, 0xE25E_1652, 0x265E_5A51);
    Took(19, 0x72AF_F2E0, 0x3E9E_9126, 0x4A1D_804E, 0xE25E_1652, 0xB5B2_04E4, 0xE9B6_C7AA);
  }

  lemma Steps21To24()
    requires Reached(20, 0x3E9E_9126, 0x4A1D_804E, 0xE25E_1652, 0xB5B2_04E4)
    ensures Reached(24, 0x59A8_FFDA, 0x6D00_2F1E, 0xABFC_7920, 0x4709_2C07)
  {
    hide Reached;
    Took(20, 0x3E9E_9126, 0x4A1D_804E, 0xE25E_1652, 0xB5B2_04E4, 0x59A8_FFDA, 0xD62F_105D);
    Took(21, 0x4A1D_804E, 0xE25E_1652, 0xB5B2_04E4, 0x59A8_FFDA, 0x6D00_2F1E, 0x0244_1453);
    Took(22, 0xE25E_1652, 0xB5B2_04E4, 0x59A8_FFDA, 0x6D00_2F1E, 0xABFC_7920, 0xD8A1_E681);
    Took(23, 0xB5B2_04E4, 0x59A8_FFDA, 0x6D00_2F1E, 0xABFC_7920, 0x4709_2C07, 0xE7D3_FBC8);
  }

  lemma Steps25To28()
    requires Reached(24, 0x59A8_FFDA, 0x6D00_2F1E, 0xABFC_7920, 0x4709_2C07)
    ensures Reached(28, 0xB7F2_68CF, 0x0938_8EFF, 0xFE16_23B1, 0x786A_CB8F)
  {
    hide Reached;
    Took(24, 0x59A8_FFDA, 0x6D00_2F1E, 0xABFC_7920, 0x4709_2C07, 0xB7F2_68CF, 0x21E1_CDE6);
    Took(25, 0x6D00_2F1E, 0xABFC_7920, 0x4709_2C07, 0xB7F2_68CF, 0x0938_8EFF, 0xC337_07D6);
    Took(26, 0xABFC_7920, 0x4709_2C07, 0xB7F2_68CF, 0x0938_8EFF, 0xFE16_23B1, 0xF4D5_0D87);
    Took(27, 0x4709_2C07, 0xB7F2_68CF, 0x0938_8EFF, 0xFE16_23B1, 0x786A_CB8F, 0x455A_14ED);
  }

  lemma Steps29To32()
    requires Reached(28, 0xB7F2_68CF, 0x0938_8EFF, 0xFE16_23B1, 0x786A_CB8F)
    ensures Reached(32, 0x790A_77FB, 0x9F47_E4F8, 0xA628_84AA, 0x7263_42D3)
  {
    hide Reached;
    Took(28, 0xB7F2_68CF, 0x0938_8EFF, 0xFE16_23B1, 0x786A_CB8F, 0x790A_77FB, 0xA9E3_E905);
    Took(29, 0x0938_8EFF, 0xFE16_23B1, 0x786A_CB8F, 0x790A_77FB, 0x9F47_E4F8, 0xFCEF_A3F8);
    Took(30, 0xFE16_23B1, 0x786A_CB8F, 0x790A_77FB, 0x9F47_E4F8, 0xA628_84AA, 0x676F_02D9);
    Took(31, 0x786A_CB8F, 0x790A_77FB, 0x9F47_E4F8, 0xA628_84AA, 0x7263_42D3, 0x8D2A_4C8A);
  }

  lemma Steps33To36()
    requires Reached(32, 0x790A_77FB, 0x9F47_E4F8, 0xA628_84AA, 0x7263_42D3)
    ensures Reached(36, 0xB370_7EBF, 0x6012_7B2E, 0x8D21_2FF5, 0x3B08_75C7)
  {
    hide Reached;
    Took(32, 0x790A_77FB, 0x9F47_E4F8, 0xA628_84AA, 0x7263_42D3, 0xB370_7EBF, 0xFFFA_3942);
    Took(33, 0x9F47_E4F8, 0xA628_84AA, 0x7263_42D3, 0xB370_7EBF, 0x6012_7B2E, 0x8771_F681);
    Took(34, 0xA628_84AA, 0x7263_42D3, 0xB370_7EBF, 0x6012_7B2E, 0x8D21_2FF5, 0x6D9D_6122);
    Took(35, 0x7263_42D3, 0xB370_7EBF, 0x6012_7B2E, 0x8D21_2FF5, 0x3B08_75C7, 0xFDE5_380C);
  }

  lemma Steps37To40()
    requires Reached(36, 0xB370_7EBF, 0x6012_7B2E, 0x8D21_2FF5, 0x3B08_75C7)
    ensures Reached(40, 0x21B1_17B9, 0x6E74_29D5, 0x3575_227E, 0x5A2F_5EA5)
  {
    hide Reached;
    Took(36, 0xB370_7EBF, 0x6012_7B2E, 0x8D21_2FF5, 0x3B08_75C7, 0x21B1_17B9, 0xA4BE_EA44);
    Took(37, 0x6012_7B2E, 0x8D21_2FF5, 0x3B08_75C7, 0x21B1_17B9, 0x6E74_29D5, 0x4BDE_CFA9);
    Took(38, 0x8D21_2FF5, 0x3B08_75C7, 0x21B1_17B9, 0x6E74_29D5, 0x3575_227E, 0xF6BB_4B60);
    Took(39, 0x3B08_75C7, 0x21B1_17B9, 0x6E74_29D5, 0x3575_227E, 0x5A2F_5EA5, 0xBEBF_BC70);
  }

  lemma Steps41To44()
    requires Reached(40, 0x21B1_17B9, 0x6E74_29D5, 0x3575_227E, 0x5A2F_5EA5)
    ensures Reached(44, 0x11DE_1779, 0xFADC_AA38, 0x31C4_65CA, 0x4C61_24F4)
  {
    hide Reached;
    Took(40, 0x21B1_17B9, 0x6E74_29D5, 0x3575_227E, 0x5A2F_5EA5, 0x11DE_1779, 0x289B_7EC6);
    Took(41, 0x6E74_29D5, 0x3575_227E, 0x5A2F_5EA5, 0x11DE_1779, 0xFADC_AA38, 0xEAA1_27FA);
    Took(42, 0x3575_227E, 0x5A2F_5EA5, 0x11DE_1779, 0xFADC_AA38, 0x31C4_65CA, 0xD4EF_3085);
    Took(43, 0x5A2F_5EA5, 0x11DE_1779, 0xFADC_AA38, 0x31C4_65CA, 0x4C61_24F4, 0x0488_1D05);
  }

  lemma Steps45To48()
    requires Reached(44, 0x11DE_1779, 0xFADC_AA38, 0x31C4_65CA, 0x4C61_24F4)
    ensures Reached(48, 0x7F2E_507B, 0x99D9_679D, 0x8FAE_6399, 0x7BEB_9700)
  {
    hide Reached;
    Took(44, 0x11DE_1779, 0xFADC_AA38, 0x31C4_65CA, 0x4C61_24F4, 0x7F2E_507B, 0xD9D4_D039);
    Took(45, 0xFADC_AA38, 0x31C4_65CA, 0x4C61_24F4, 0x7F2E_507B, 0x99D9_679D, 0xE6DB_99E5);
    Took(46, 0x31C4_65CA, 0x4C61_24F4, 0x7F2E_507B, 0x99D9_679D, 0x8FAE_6399, 0x1FA2_7CF8);
    Took(47, 0x4C61_24F4, 0x7F2E_507B, 0x99D9_679D, 0x8FAE_6399, 0x7BEB_9700, 0xC4AC_5665);
  }

  lemma Steps49To52()
    requires Reached(48, 0x7F2E_507B, 0x99D9_679D, 0x8FAE_6399, 0x7BEB_9700)
    ensures Reached(52, 0x7B20_1DF8, 0xF4E8_E96E, 0xB298_CEFD, 0x8BF0_25C4)
  {
    hide Reached;
    Took(48, 0x7F2E_507B, 0x99D9_679D, 0x8FAE_6399, 0x7BEB_9700, 0x7B20_1DF8, 0xF429_2244);
    Took(49, 0x99D9_679D, 0x8FAE_6399, 0x7BEB_9700, 0x7B20_1DF8, 0xF4E8_E96E, 0x432A_FF97);
    Took(50, 0x8FAE_6399, 0x7BEB_9700, 0x7B20_1DF8, 0xF4E8_E96E, 0xB298_CEFD, 0xAB94_23A7);
    Took(51, 0x7BEB_9700, 0x7B20_1DF8, 0xF4E8_E96E, 0xB298_CEFD, 0x8BF0_25C4, 0xFC93_A039);
  }

  lemma Steps53To56()
    requires Reached(52, 0x7B20_1DF8, 0xF4E8_E96E, 0xB298_CEFD, 0x8BF0_25C4)
    ensures Reached(56, 0x06CC_5E8A, 0x5B0D_97AA, 0x7D63_2DD0, 0x3BFA_2C27)
  {
    hide Reached;
    Took(52, 0x7B20_1DF8, 0xF4E8_E96E, 0xB298_CEFD, 0x8BF0_25C4, 0x06CC_5E8A, 0x655B_59C3);
    Took(53, 0xF4E8_E96E, 0xB298_CEFD, 0x8BF0_25C4, 0x06CC_5E8A, 0x5B0D_97AA, 0x8F0C_CC92);
    Took(54, 0xB298_CEFD, 0x8BF0_25C4, 0x06CC_5E8A, 0x5B0D_97AA, 0x7D63_2DD0, 0xFFEF_F47D);
    Took(55, 0x8BF0_25C4, 0x06CC_5E8A, 0x5B0D_97AA, 0x7D63_2DD0, 0x3BFA_2C27, 0x8584_5DD1);
  }

  lemma Steps57To60()
    requires Reached(56, 0x06CC_5E8A, 0x5B0D_97AA, 0x7D63_2DD0, 0x3BFA_2C27)
    ensures Reached(60, 0x7F81_CC35, 0x0944_54AB, 0x4F9D_BE3F, 0x7327_D604)
  {
    hide Reached;
    Took(56, 0x06CC_5E8A, 0x5B0D_97AA, 0x7D63_2DD0, 0x3BFA_2C27, 0x7F81_CC35, 0x6FA8_7E4F);
    Took(57, 0x5B0D_97AA, 0x7D63_2DD0, 0x3BFA_2C27, 0x7F81_CC35, 0x0944_54AB, 0xFE2C_E6E0);
    Took(58, 0x7D63_2DD0, 0x3BFA_2C27, 0x7F81_CC35, 0x0944_54AB, 0x4F9D_BE3F, 0xA301_4314);
    Took(59, 0x3BFA_2C27, 0x7F81_CC35, 0x0944_54AB, 0x4F9D_BE3F, 0x7327_D604, 0x4E08_11A1);
  }

  lemma Steps61To64()
    requires Reached(60, 0x7F81_CC35, 0x0944_54AB, 0x4F9D_BE3F, 0x7327_D604)
    ensures Reached(64, 0x310A_DE8F, 0x624D_8CB2, 0xE484_B9D8, 0xC082_26B3)
  {
    hide Reached;
    Took(60, 0x7F81_CC35, 0x0944_54AB, 0x4F9D_BE3F, 0x7327_D604, 0x310A_DE8F, 0xF753_7E82);
    Took(61, 0x0944_54AB, 0x4F9D_BE3F, 0x7327_D604, 0x310A_DE8F, 0x624D_8CB2, 0xBD3A_F235);
    Took(62, 0x4F9D_BE3F, 0x7327_D604, 0x310A_DE8F, 0x624D_8CB2, 0xE484_B9D8, 0x2AD7_D2BB);
    Took(63, 0x7327_D604, 0x310A_DE8F, 0x624D_8CB2, 0xE484_B9D8, 0xC082_26B3, 0xEB86_D391);
  }

  lemma AllTheSteps()
    ensures Reached(64, 0x310A_DE8F, 0x624D_8CB2, 0xE484_B9D8, 0xC082_26B3)
  {
    hide Reached;
    Start();
    Steps1To4();
    Steps5To8();
    Steps9To12();
    Steps13To16();
    Steps17To20();
    Steps21To24();
    Steps25To28();
    Steps29To32();
    Steps33To36();
    Steps37To40();
    Steps41To44();
    Steps45To48();
    Steps49To52();
    Steps53To56();
    Steps57To60();
    Steps61To64();
  }

  // ---------------------------------------------------------------- the padded message

  lemma ZeroWord()
    ensures LittleEndian(0, 4) == [0, 0, 0, 0]
  {
    assert LittleEndian(0, 2) == [0, 0];
  }

  lemma FourZeros(n: nat)
    ensures Zeros(n + 4) == [0, 0, 0, 0] + Zeros(n)
  {
    var one, two, three := Zeros(n + 1), Zeros(n + 2), Zeros(n + 3);
    assert one == [0] + Zeros(n) && two == [0] + one && three == [0] + two;
    assert [0] + ([0] + ([0] + ([0] + Zeros(n)))) == [0, 0, 0, 0] + Zeros(n);
  }

  /** Zeros before the rest of a message. */
  lemma {:induction false} BytesOfZeros(n: nat, b: seq<u32>)
    ensures BytesOf(ZeroWords(n) + b) == Zeros(4 * n) + BytesOf(b)
  {
    hide Zeros;
    if n == 0 {
      assert ZeroWords(0) + b == b && Zeros(0) == [];
    } else {
      BytesOfZeros(n - 1, b);
      assert (ZeroWords(n) + b)[1..] == ZeroWords(n - 1) + b;
      ZeroWord();
      FourZeros(4 * (n - 1));
    }
  }

  lemma FirstWord()
    ensures BytesOf([0x8063_6261]) == [0x61, 0x62, 0x63, 0x80]
  {
    assert LittleEndian(0x8063, 2) == [0x63, 0x80];
    assert LittleEndian(0x80_6362, 3) == [0x62] + LittleEndian(0x8063, 2);
    assert LittleEndian(0x8063_6261, 4) == [0x61] + LittleEndian(0x80_6362, 3);
    assert [0x8063_6261][1..] == [];
  }

  lemma PaddedIs()
    ensures Padded([0x61, 0x62, 0x63]) == BytesOf(Block())
  {
    hide LittleEndian, Zeros, BytesOf;
    FirstWord();
    BytesOfZeros(13, [24, 0]);
    LittleEndianPair(24, 0);
    OneMoreWord(0x8063_6261, ZeroWords(13) + [24, 0]);
    assert PadLength(3) == 53;
    Front(Zeros(52), LittleEndian(24, 8));
  }

  lemma OneMoreWord(x: u32, b: seq<u32>)
    ensures BytesOf([x] + b) == BytesOf([x]) + BytesOf(b)
  {
    assert ([x] + b)[1..] == b && [x][1..] == [];
    assert BytesOf([x]) == LittleEndian(x, 4) + [];
  }

  lemma Front(zeros: seq<u8>, bits: seq<u8>)
    ensures [0x61, 0x62, 0x63] + ([0x80] + zeros) + bits == [0x61, 0x62, 0x63, 0x80] + (zeros + bits)
  {
  }

  // ---------------------------------------------------------------- the digest

  lemma DigestFromWords(m: seq<u8>, x: seq<u32>, r: Regs)
    requires Padded(m) == BytesOf(x) && |x| == 16 && r == Plus(INITIAL, AllSteps(INITIAL, x))
    ensures Digest(m) == BytesOf([r.a, r.b, r.c, r.d])
  {
    hide AllSteps, BytesOf, WordsOf, Padded;
    var block := Padded(m);
    WordsOfBytes(x);
    assert block[..64] == block && block[64..] == [];
    assert FoldBlocks(Compress, INITIAL, block) == FoldBlocks(Compress, Compress(INITIAL, block), []);
  }

  lemma WordBytes(x: u32, b: seq<u8>)
    requires |b| == 4 && x == b[0] + 0x100 * (b[1] as int) + 0x1_0000 * (b[2] as int) + 0x100_0000 * (b[3] as int)
    ensures BytesOf([x]) == b
  {
    NumberOf4(b);
    LittleEndianOfNumber(b);
    assert [x][1..] == [];
  }

  lemma FourWords(a: u32, b: u32, c: u32, d: u32)
    ensures BytesOf([a, b, c, d]) == BytesOf([a]) + BytesOf([b]) + BytesOf([c]) + BytesOf([d])
  {
    hide BytesOf;
    assert [a, b, c, d] == [a] + ([b] + ([c] + [d]));
    OneMoreWord(a, [b] + ([c] + [d]));
    OneMoreWord(b, [c] + [d]);
    OneMoreWord(c, [d]);
  }

  lemma AllStepsOfAbc()
    ensures AllSteps(INITIAL, Block()) == Regs(Val(0x310A_DE8F), Val(0xC082_26B3), Val(0xE484_B9D8), Val(0x624D_8CB2))
  {
    hide Val, Steps, Block, Schedule;
    AllTheSteps();
  }

  lemma LastRegisters()
    ensures Plus(INITIAL, AllSteps(INITIAL, Block())) == Regs(0x9850_0190, 0xB04F_D23C, 0x7D3F_96D6, 0x727F_E128)
  {
    hide Val, AllSteps;
    AllStepsOfAbc();
    ValBytes(0x310A_DE8F);
    ValBytes(0x624D_8CB2);
    ValBytes(0xE484_B9D8);
    ValBytes(0xC082_26B3);
  }

  /** MD5 ("abc") = 900150983cd24fb0d6963f7d28e17f72 */
  lemma DigestOfAbc()
    ensures Digest([0x61, 0x62, 0x63])
            == [0x90, 0x01, 0x50, 0x98, 0x3C, 0xD2, 0x4F, 0xB0,
                0xD6, 0x96, 0x3F, 0x7D, 0x28, 0xE1, 0x7F, 0x72]
  {
    hide Digest, BytesOf, Padded, AllSteps, Plus;
    PaddedIs();
    LastRegisters();
    DigestFromWords([0x61, 0x62, 0x63], Block(), Regs(0x9850_0190, 0xB04F_D23C, 0x7D3F_96D6, 0x727F_E128));
    FourWords(0x9850_0190, 0xB04F_D23C, 0x7D3F_96D6, 0x727F_E128);
    WordBytes(0x9850_0190, [0x90, 0x01, 0x50, 0x98]);
    WordBytes(0xB04F_D23C, [0x3C, 0xD2, 0x4F, 0xB0]);
    WordBytes(0x7D3F_96D6, [0xD6, 0x96, 0x3F, 0x7D]);
    WordBytes(0x727F_E128, [0x28, 0xE1, 0x7F, 0x72]);
  }
}
