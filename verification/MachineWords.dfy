/** 32-bit words as bit vectors, and the number that each stands for: on them the operators of Words
    are those of the machine. */
module MachineWords {
  import opened Md5Bits
  import opened Words

  // The operators of the machine, under names.

  type W = bv32

  function Half(x: W): W {
    x >> 1
  }

  predicate Odd(x: W) {
    x & 1 == 1
  }

  function AndW(x: W, y: W): W {
    x & y
  }

  function OrW(x: W, y: W): W {
    x | y
  }

  function XorW(x: W, y: W): W {
    x ^ y
  }

  function Shl1(x: W): W {
    x << 1
  }

  function AddW(x: W, y: W): W {
    x + y
  }

  const LOW: W := 0x7FFF_FFFF

  // ---------------------------------------------------------------- the number of a word

  function Twice(n: nat, odd: bool): nat {
    2 * n + (if odd then 1 else 0)
  }

  /** The number whose binary digits are the lowest `n` bits of `x`. */
  function Bits(x: W, n: nat): nat
    decreases n
  {
    if n == 0 then 0 else Twice(Bits(Half(x), n - 1), Odd(x))
  }

  function Val(x: W): u32 {
    Pow2At32();
    BitsBound(x, 32);
    Bits(x, 32)
  }

  lemma {:induction false} BitsBound(x: W, n: nat)
    ensures Bits(x, n) < Pow2(n)
    decreases n
  {
    if n > 0 {
      BitsBound(Half(x), n - 1);
    }
  }

  lemma Unfold(x: W, n: nat)
    requires n > 0
    ensures Bits(x, n) == Twice(Bits(Half(x), n - 1), Odd(x))
  {
  }

  lemma TwiceBits(n: nat, odd: bool)
    ensures Twice(n, odd) / 2 == n && (Twice(n, odd) % 2 == 1 <==> odd)
  {
  }

  // ---------------------------------------------------------------- bit by bit

  lemma AndTwice(m: nat, p: bool, n: nat, q: bool)
    ensures And(Twice(m, p), Twice(n, q)) == Twice(And(m, n), p && q)
  {
    hide And;
    TwiceBits(m, p);
    TwiceBits(n, q);
    AndBit(Twice(m, p), Twice(n, q));
  }

  lemma HalfAnd(x: W, y: W)
    ensures Half(AndW(x, y)) == AndW(Half(x), Half(y)) && (Odd(AndW(x, y)) <==> (Odd(x) && Odd(y)))
  {
  }

  lemma {:induction false} BitsAnd(x: W, y: W, n: nat)
    ensures Bits(AndW(x, y), n) == And(Bits(x, n), Bits(y, n))
    decreases n
  {
    if n > 0 {
      hide And, AndW, Half, Odd, Twice;
      HalfAnd(x, y);
      BitsAnd(Half(x), Half(y), n - 1);
      AndTwice(Bits(Half(x), n - 1), Odd(x), Bits(Half(y), n - 1), Odd(y));
    }
  }

  lemma OrTwice(m: nat, p: bool, n: nat, q: bool)
    ensures Or(Twice(m, p), Twice(n, q)) == Twice(Or(m, n), p || q)
  {
    hide Or;
    TwiceBits(m, p);
    TwiceBits(n, q);
    OrBit(Twice(m, p), Twice(n, q));
  }

  lemma HalfOr(x: W, y: W)
    ensures Half(OrW(x, y)) == OrW(Half(x), Half(y)) && (Odd(OrW(x, y)) <==> (Odd(x) || Odd(y)))
  {
  }

  lemma {:induction false} BitsOr(x: W, y: W, n: nat)
    ensures Bits(OrW(x, y), n) == Or(Bits(x, n), Bits(y, n))
    decreases n
  {
    if n > 0 {
      hide Or, OrW, Half, Odd, Twice;
      HalfOr(x, y);
      BitsOr(Half(x), Half(y), n - 1);
      OrTwice(Bits(Half(x), n - 1), Odd(x), Bits(Half(y), n - 1), Odd(y));
    }
  }

  lemma XorTwice(m: nat, p: bool, n: nat, q: bool)
    ensures Xor(Twice(m, p), Twice(n, q)) == Twice(Xor(m, n), p != q)
  {
    hide Xor;
    TwiceBits(m, p);
    TwiceBits(n, q);
    XorBit(Twice(m, p), Twice(n, q));
  }

  lemma HalfXor(x: W, y: W)
    ensures Half(XorW(x, y)) == XorW(Half(x), Half(y)) && (Odd(XorW(x, y)) <==> (Odd(x) != Odd(y)))
  {
  }

  lemma {:induction false} BitsXor(x: W, y: W, n: nat)
    ensures Bits(XorW(x, y), n) == Xor(Bits(x, n), Bits(y, n))
    decreases n
  {
    if n > 0 {
      hide Xor, XorW, Half, Odd, Twice;
      HalfXor(x, y);
      BitsXor(Half(x), Half(y), n - 1);
      XorTwice(Bits(Half(x), n - 1), Odd(x), Bits(Half(y), n - 1), Odd(y));
    }
  }

  /** The lowest `n` of `n + 1` bits. */
  lemma {:induction false} LowBits(x: W, n: nat)
    ensures Bits(x, n + 1) % Pow2(n) == Bits(x, n)
    decreases n
  {
    hide Half, Odd, Twice;
    if n > 0 {
      LowBits(Half(x), n - 1);
      TwiceMod(Bits(Half(x), n), Odd(x), Pow2(n - 1));
    }
  }

  lemma TwiceMod(a: nat, odd: bool, p: nat)
    requires p > 0
    ensures Twice(a, odd) % (2 * p) == Twice(a % p, odd)
  {
    var q, r := a / p, a % p;
    assert 2 * p * q == 2 * (p * q);
    DivModUnique(Twice(a, odd), 2 * p, q, Twice(r, odd));
  }

  // ---------------------------------------------------------------- byte by byte

  function Byte(x: W): bv8 {
    (x & 0xFF) as bv8
  }

  function Value(x: W): nat {
    0x100_0000 * (Byte(x >> 24) as nat) + 0x1_0000 * (Byte(x >> 16) as nat) + 0x100 * (Byte(x >> 8) as nat)
    + (Byte(x) as nat)
  }

  function Low4(x: W): nat {
    Twice(Twice(Twice(Twice(0, x & 8 == 8), x & 4 == 4), x & 2 == 2), x & 1 == 1)
  }

  function Shr4(x: W): W {
    x >> 4
  }

  lemma HalfFour(x: W)
    ensures Half(Half(Half(Half(x)))) == Shr4(x)
    ensures (Odd(x) <==> x & 1 == 1) && (Odd(Half(x)) <==> x & 2 == 2)
    ensures (Odd(Half(Half(x))) <==> x & 4 == 4) && (Odd(Half(Half(Half(x)))) <==> x & 8 == 8)
  {
  }

  lemma Bits4(x: W, n: nat)
    ensures Bits(x, n + 4) == 16 * Bits(Shr4(x), n) + Low4(x)
  {
    hide Half, Odd, Bits, Shr4;
    HalfFour(x);
    Unfold(x, n + 4);
    Unfold(Half(x), n + 3);
    Unfold(Half(Half(x)), n + 2);
    Unfold(Half(Half(Half(x))), n + 1);
  }

  lemma ByteIs(b: bv8)
    ensures b as nat == Low4(b as bv32) + 16 * Low4((b as bv32) >> 4)
  {
  }

  lemma ByteOf(x: W)
    ensures Low4(Byte(x) as bv32) == Low4(x) && Low4((Byte(x) as bv32) >> 4) == Low4(Shr4(x))
  {
    hide Twice;
    var y := Byte(x) as bv32;
    assert y & 1 == x & 1 && y & 2 == x & 2 && y & 4 == x & 4 && y & 8 == x & 8;
    assert (y >> 4) & 1 == (x >> 4) & 1 && (y >> 4) & 2 == (x >> 4) & 2;
    assert (y >> 4) & 4 == (x >> 4) & 4 && (y >> 4) & 8 == (x >> 4) & 8;
  }

  function Shr8(x: W): W {
    x >> 8
  }

  lemma Shr44(x: W)
    ensures Shr4(Shr4(x)) == Shr8(x)
  {
  }

  lemma Bits8(x: W, n: nat)
    ensures Bits(x, n + 8) == 256 * Bits(Shr8(x), n) + (Byte(x) as nat)
  {
    hide Half, Odd, Bits, Shr4, Shr8, Byte, Low4;
    Bits4(x, n + 4);
    Bits4(Shr4(x), n);
    Shr44(x);
    ByteIs(Byte(x));
    ByteOf(x);
  }

  lemma Shr888(x: W)
    ensures Shr8(Shr8(x)) == x >> 16 && Shr8(Shr8(Shr8(x))) == x >> 24 && Shr8(x) == x >> 8
  {
  }

  lemma ByteSum(x: W)
    ensures Bits(x, 32)
            == (Byte(x) as nat) + 256 * ((Byte(Shr8(x)) as nat)
                 + 256 * ((Byte(Shr8(Shr8(x))) as nat) + 256 * (Byte(Shr8(Shr8(Shr8(x)))) as nat)))
  {
    hide Byte, Shr8, Half, Odd, Twice;
    Bits8(x, 24);
    Bits8(Shr8(x), 16);
    Bits8(Shr8(Shr8(x)), 8);
    Bits8(Shr8(Shr8(Shr8(x))), 0);
  }

  lemma ValBytes(x: W)
    ensures Val(x) == Value(x)
  {
    hide Byte, Shr8, Bits;
    ByteSum(x);
    Shr888(x);
  }

  // ---------------------------------------------------------------- sums

  lemma {:induction false} XorAnd(m: nat, n: nat)
    ensures Xor(m, n) + 2 * And(m, n) == m + n
  {
    if m != 0 && n != 0 {
      XorAnd(m / 2, n / 2);
    }
  }

  lemma HalfShl1(x: W)
    ensures Half(Shl1(x)) == AndW(x, LOW) && !Odd(Shl1(x))
  {
  }

  lemma LowIs()
    ensures Bits(LOW, 31) == 0x7FFF_FFFF
  {
    hide Bits, Value;
    ValBytes(LOW);
    LowValue();
    LowBits(LOW, 31);
    Pow2At31();
  }

  lemma LowValue()
    ensures Value(LOW) == 0x7FFF_FFFF
  {
  }

  lemma Pow2At31()
    ensures Pow2(31) == 0x8000_0000
  {
    Pow2At32();
    assert Pow2(32) == 2 * Pow2(31);
  }

  lemma Doubled(v: nat, low: nat)
    requires low == v % 0x8000_0000
    ensures 2 * low == (2 * v) % 0x1_0000_0000
  {
  }

  lemma LowVal(x: W)
    ensures Bits(x, 31) == Val(x) % 0x8000_0000 && And(Bits(x, 31), 0x7FFF_FFFF) == Bits(x, 31)
  {
    hide And, Bits, Pow2;
    Pow2At31();
    BitsBound(x, 31);
    AndMask(Bits(x, 31), 31);
    LowBits(x, 31);
  }

  /** Doubling loses the top bit. */
  lemma ValShl1(x: W)
    ensures Val(Shl1(x)) == Wrap32(2 * Val(x))
  {
    hide And, AndW, Half, Odd, Shl1, Bits;
    Unfold(Shl1(x), 32);
    HalfShl1(x);
    BitsAnd(x, LOW, 31);
    LowIs();
    LowVal(x);
    Doubled(Val(x), Bits(x, 31));
  }

  /** Halving drops the bottom bit. */
  lemma ValHalf(x: W)
    ensures Val(Half(x)) == Val(x) / 2
  {
    hide And, AndW, Half, Odd, Bits;
    Unfold(x, 32);
    HalfIsLow(x);
    BitsAnd(Half(x), LOW, 32);
    ValLow();
    HalfLow(Half(x));
  }

  lemma HalfIsLow(x: W)
    ensures AndW(Half(x), LOW) == Half(x)
  {
  }

  lemma ValLow()
    ensures Val(LOW) == 0x7FFF_FFFF
  {
    ValBytes(LOW);
    LowValue();
  }

  lemma HalfLow(y: W)
    requires AndW(y, LOW) == y
    ensures Val(y) == Bits(y, 31)
  {
    hide And, AndW, Bits, Pow2;
    BitsAnd(y, LOW, 32);
    ValLow();
    Pow2At31();
    AndMask(Val(y), 31);
    LowBits(y, 31);
  }

  // ---------------------------------------------------------------- sums

  function Inc(x: W): W {
    x + 1
  }

  lemma IncEven(x: W)
    requires !Odd(x)
    ensures Half(Inc(x)) == Half(x) && Odd(Inc(x))
  {
  }

  lemma IncOdd(x: W)
    requires Odd(x)
    ensures Half(Inc(x)) == AndW(Inc(Half(x)), LOW) && !Odd(Inc(x))
  {
  }

  lemma {:induction false} LowOnes(n: nat)
    requires n <= 31
    ensures Bits(LOW, n) == Pow2(n) - 1
    decreases 31 - n
  {
    hide Bits;
    if n == 31 {
      LowIs();
      Pow2At31();
    } else {
      LowOnes(n + 1);
      LowBits(LOW, n);
      DivModUnique(2 * Pow2(n) - 1, Pow2(n), 1, Pow2(n) - 1);
    }
  }

  lemma LowMask(x: W, n: nat)
    requires n <= 31
    ensures Bits(AndW(x, LOW), n) == Bits(x, n)
  {
    hide And, AndW, Bits, Pow2;
    BitsAnd(x, LOW, n);
    LowOnes(n);
    BitsBound(x, n);
    AndMask(Bits(x, n), n);
  }

  lemma CarryOn(b: nat, p: nat)
    requires p > 0
    ensures Twice((b + 1) % p, false) == (Twice(b, true) + 1) % (2 * p)
  {
    TwiceMod(b + 1, false, p);
  }

  lemma NoCarry(b: nat, p: nat)
    requires b < p
    ensures Twice(b, true) == (Twice(b, false) + 1) % (2 * p)
  {
    DivModUnique(Twice(b, true), 2 * p, 0, Twice(b, true));
  }

  /** Adding one carries through the ones at the bottom. */
  lemma {:induction false} BitsInc(x: W, n: nat)
    requires n <= 32
    ensures Bits(Inc(x), n) == (Bits(x, n) + 1) % Pow2(n)
    decreases n
  {
    hide And, AndW, Inc, Half, Odd, Twice;
    if n > 0 {
      var b, p := Bits(Half(x), n - 1), Pow2(n - 1);
      if Odd(x) {
        IncOdd(x);
        LowMask(Inc(Half(x)), n - 1);
        BitsInc(Half(x), n - 1);
        CarryOn(b, p);
      } else {
        IncEven(x);
        BitsBound(Half(x), n - 1);
        NoCarry(b, p);
      }
    }
  }

  lemma ValInc(x: W)
    ensures Val(x + 1) == Wrap32(Val(x) + 1)
  {
    hide Bits, Pow2;
    Pow2At32();
    BitsInc(x, 32);
    assert Inc(x) == x + 1;
  }

  lemma ValDec(x: W)
    requires x != 0
    ensures Val(x) > 0 && Val(x - 1) == Val(x) - 1
  {
    hide Val, Value;
    ValBytes(x);
    if Value(x) == 0 {
      NoBytes(x);
    }
    ValInc(x - 1);
    assert x - 1 + 1 == x;
  }

  lemma NoBytes(x: W)
    requires Value(x) == 0
    ensures x == 0
  {
  }

  lemma OneOver(x: W, y: W)
    ensures AddW(x + 1, y - 1) == AddW(x, y)
  {
  }

  lemma AddZero(x: W)
    ensures AddW(x, 0) == x && Val(0) == 0
  {
    hide Val;
    ValBytes(0);
  }

  lemma {:induction false} ValAdd(x: W, y: W)
    ensures Val(AddW(x, y)) == Wrap32(Val(x) + Val(y))
    decreases Val(y)
  {
    hide Val, AddW;
    if y == 0 {
      AddZero(x);
    } else {
      ValDec(y);
      OneOver(x, y);
      ValAdd(x + 1, y - 1);
      ValInc(x);
      OneMoved(Val(x), Val(y));
    }
  }

  lemma OneMoved(x: nat, y: nat)
    requires y > 0
    ensures Wrap32(Wrap32(x + 1) + (y - 1)) == Wrap32(x + y)
  {
  }

  // ---------------------------------------------------------------- the other operators

  lemma ValOperators(x: W, y: W)
    ensures Val(AndW(x, y)) == And32(Val(x), Val(y))
    ensures Val(OrW(x, y)) == Or32(Val(x), Val(y))
    ensures Val(XorW(x, y)) == Xor32(Val(x), Val(y))
  {
    hide Bits, AndW, OrW, XorW, And, Or, Xor;
    BitsAnd(x, y, 32);
    BitsOr(x, y, 32);
    BitsXor(x, y, 32);
  }

  function NotW(x: W): W {
    !x
  }

  lemma NotParts(x: W)
    ensures AndW(x, NotW(x)) == 0 && XorW(x, NotW(x)) == 0xFFFF_FFFF
  {
  }

  lemma ValNot(x: W)
    ensures Val(NotW(x)) == Not32(Val(x))
  {
    hide AndW, XorW, NotW, And, Xor, Bits, Value;
    NotParts(x);
    BitsAnd(x, NotW(x), 32);
    BitsXor(x, NotW(x), 32);
    XorAnd(Val(x), Val(NotW(x)));
    Extremes();
  }

  lemma Extremes()
    ensures Val(0) == 0 && Val(0xFFFF_FFFF) == 0xFFFF_FFFF
  {
    hide Val, Bits;
    ValBytes(0);
    ValBytes(0xFFFF_FFFF);
  }

  function Shl(x: W, n: nat): W
    decreases n
  {
    if n == 0 then x else Shl1(Shl(x, n - 1))
  }

  function Shr(x: W, n: nat): W
    decreases n
  {
    if n == 0 then x else Half(Shr(x, n - 1))
  }

  lemma {:induction false} ValShl(x: W, n: nat)
    ensures Val(Shl(x, n)) == Wrap32(Val(x) * Pow2(n))
    decreases n
  {
    hide Val, Shl1;
    if n > 0 {
      ValShl(x, n - 1);
      ValShl1(Shl(x, n - 1));
      ShiftMore(Val(x), Pow2(n - 1));
    }
  }

  lemma ShiftMore(v: nat, p: nat)
    ensures (2 * ((v * p) % 0x1_0000_0000)) % 0x1_0000_0000 == (v * (2 * p)) % 0x1_0000_0000
  {
    assert v * (2 * p) == 2 * (v * p);
    DoubleMod(v * p);
  }

  lemma DoubleMod(t: nat)
    ensures (2 * (t % 0x1_0000_0000)) % 0x1_0000_0000 == (2 * t) % 0x1_0000_0000
  {
    var q, r := t / 0x1_0000_0000, t % 0x1_0000_0000;
    ModAdd(2 * r, 0x1_0000_0000, 2 * q);
  }

  lemma {:induction false} ValShr(x: W, n: nat)
    ensures Val(Shr(x, n)) == Val(x) / Pow2(n)
    decreases n
  {
    hide Val, Half;
    if n > 0 {
      ValShr(x, n - 1);
      ValHalf(Shr(x, n - 1));
      DivideMore(Val(x), Pow2(n - 1));
    }
  }

  lemma DivideMore(v: nat, p: nat)
    requires p > 0
    ensures v / p / 2 == v / (2 * p)
  {
    var q := v / p;
    assert 2 * p * (q / 2) + p * (q % 2) == p * q by {
      assert q == 2 * (q / 2) + q % 2;
      assert p * q == p * (2 * (q / 2) + q % 2) == 2 * p * (q / 2) + p * (q % 2);
    }
    assert p * (q % 2) <= p;
    DivModUnique(v, 2 * p, q / 2, p * (q % 2) + v % p);
  }

  /** ROTATE_LEFT, as the machine does it. */
  function Rotate(x: W, n: nat): W
    requires 0 < n < 32
  {
    OrW(Shl(x, n), Shr(x, 32 - n))
  }

  lemma ValRotate(x: W, n: nat)
    requires 0 < n < 32
    ensures Val(Rotate(x, n)) == RotateLeft(Val(x), n)
  {
    hide Val, OrW;
    ValShl(x, n);
    ValShr(x, 32 - n);
    ValOperators(Shl(x, n), Shr(x, 32 - n));
  }

  function Up(x: W, k: bv6): W
    requires k <= 32
  {
    x << k
  }

  function Down(x: W, k: bv6): W
    requires k <= 32
  {
    x >> k
  }

  lemma OneMore(x: W, k: bv6)
    requires 0 < k < 32
    ensures x << k == (x << (k - 1)) << 1 && x >> k == (x >> (k - 1)) >> 1
  {
  }

  lemma ShiftStep(x: W, k: bv6)
    requires 0 < k < 32
    ensures Up(x, k) == Shl1(Up(x, k - 1)) && Down(x, k) == Half(Down(x, k - 1))
  {
    calc {
      Up(x, k);
      x << k;
      { OneMore(x, k); }
      (x << (k - 1)) << 1;
      Shl1(Up(x, k - 1));
    }
    calc {
      Down(x, k);
      x >> k;
      { OneMore(x, k); }
      (x >> (k - 1)) >> 1;
      Half(Down(x, k - 1));
    }
  }

  lemma NoShift(x: W)
    ensures Up(x, 0) == x && Down(x, 0) == x
  {
  }

  lemma Amount(k: bv6, n: nat)
    requires k as nat == n < 32
    ensures k < 32 && (n == 0 ==> k == 0) && (n > 0 ==> 0 < k && (k - 1) as nat == n - 1)
    ensures (32 - k) as nat == 32 - n
  {
  }

  lemma {:induction false} Shifts(x: W, n: nat, k: bv6)
    requires k as nat == n < 32
    ensures Shl(x, n) == Up(x, k) && Shr(x, n) == Down(x, k)
    decreases n
  {
    hide Shl1, Half, Up, Down;
    Amount(k, n);
    if n > 0 {
      ShiftStep(x, k);
      Shifts(x, n - 1, k - 1);
    } else {
      NoShift(x);
    }
  }

  lemma RotateIs(x: W, n: nat, k: bv6)
    requires 0 < n < 32 && k as nat == n
    ensures Rotate(x, n) == OrW(Up(x, k), Down(x, 32 - k))
  {
    hide Shl, Shr, Up, Down, OrW;
    Amount(k, n);
    Shifts(x, n, k);
    Shifts(x, 32 - n, 32 - k);
  }
}
