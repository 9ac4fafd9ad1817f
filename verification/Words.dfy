/** Fixed-width unsigned words as bounded integers, and the bitwise operators the driver
    applies to them.  Wrap-around is always written out with `Wrap32`. */
module Words {

  type u8 = x: int | 0 <= x < 0x100
  type u16 = x: int | 0 <= x < 0x1_0000
  type u32 = x: int | 0 <= x < 0x1_0000_0000

  datatype Option<+T> = None | Some(value: T)

  /** What a 32-bit unsigned register keeps of a mathematical integer. */
  function Wrap32(x: int): u32 {
    x % 0x1_0000_0000
  }

  /** What a 64-bit unsigned register keeps of a mathematical integer. */
  function Wrap64(x: int): (r: int)
    ensures 0 <= r < 0x1_0000_0000_0000_0000
  {
    x % 0x1_0000_0000_0000_0000
  }

  function Pow2(n: nat): (p: nat)
    ensures p >= 1
  {
    if n == 0 then 1 else 2 * Pow2(n - 1)
  }

  // ---------------------------------------------------------------- bitwise operators

  function And(x: nat, y: nat): nat {
    if x == 0 || y == 0 then 0
    else 2 * And(x / 2, y / 2) + (if x % 2 == 1 && y % 2 == 1 then 1 else 0)
  }

  function Or(x: nat, y: nat): nat {
    if x == 0 then y else if y == 0 then x
    else 2 * Or(x / 2, y / 2) + (if x % 2 == 1 || y % 2 == 1 then 1 else 0)
  }

  function Xor(x: nat, y: nat): nat {
    if x == 0 then y else if y == 0 then x
    else 2 * Xor(x / 2, y / 2) + (x + y) % 2
  }

  function Not32(x: u32): u32 {
    0xFFFF_FFFF - x
  }

  /** The kernel's ALIGN(x, a): exact for powers of two only. */
  function Align(x: u32, a: u32): nat
    requires 0 < a && x + a - 1 < 0x1_0000_0000
  {
    And(x + a - 1, Not32(a - 1))
  }

  // ---------------------------------------------------------------- division facts

  /** A product with a factor of at least one does not shrink. */
  lemma MulAtLeast(d: int, k: int)
    requires 0 < d && 1 <= k
    ensures d <= d * k
  {
  }

  /** A multiple of `d` strictly between `-d` and `d` is zero. */
  lemma SmallMultiple(d: int, k: int, v: int)
    requires 0 < d && v == d * k && -d < v < d
    ensures k == 0
  {
    if k >= 1 {
      MulAtLeast(d, k);
    } else if k <= -1 {
      MulAtLeast(d, -k);
    }
  }

  /** A quotient and a remainder in range are the quotient and the remainder. */
  lemma DivModUnique(x: int, d: int, q: int, r: int)
    requires 0 < d && 0 <= r < d && x == d * q + r
    ensures x / d == q && x % d == r
  {
    var q', r' := x / d, x % d;
    assert x == d * q' + r';
    assert d * (q - q') == d * q - d * q';
    SmallMultiple(d, q - q', r' - r);
  }

  /** Adding a multiple of the divisor leaves the remainder alone. */
  lemma ModAdd(x: int, d: int, k: int)
    requires 0 < d
    ensures (x + d * k) % d == x % d
    ensures (x + d * k) / d == x / d + k
  {
    assert d * (x / d + k) == d * (x / d) + d * k;
    DivModUnique(x + d * k, d, x / d + k, x % d);
  }

  /** Two different integers less than `d` apart have different remainders. */
  lemma ModDistinct(a: int, b: int, d: int)
    requires 0 < d && a < b < a + d
    ensures a % d != b % d
  {
    var qa, qb := a / d, b / d;
    assert a == d * qa + a % d && b == d * qb + b % d;
    if a % d == b % d {
      assert d * (qb - qa) == d * qb - d * qa;
      SmallMultiple(d, qb - qa, b - a);
    }
  }

  lemma DivShrinks(x: nat, d: nat)
    requires 0 < d
    ensures 0 <= x / d <= x
  {
    var q := x / d;
    assert x == d * q + x % d;
    if q >= 1 {
      assert q <= q * d by { MulAtLeast(q, d); }
    }
  }

  lemma {:induction false} Pow2Add(a: nat, b: nat)
    ensures Pow2(a + b) == Pow2(a) * Pow2(b)
  {
    if a > 0 {
      Pow2Add(a - 1, b);
      assert Pow2(a + b) == 2 * Pow2(a - 1 + b);
    }
  }

  lemma {:induction false} Pow2Mono(a: nat, b: nat)
    requires a <= b
    ensures Pow2(a) <= Pow2(b)
    decreases b
  {
    if a < b {
      Pow2Mono(a, b - 1);
    }
  }

  lemma Pow2At32()
    ensures Pow2(32) == 0x1_0000_0000
  {
    assert Pow2(8) == 0x100;
    assert Pow2(16) == 0x1_0000 by { Pow2Add(8, 8); }
    Pow2Add(16, 16);
  }

  /** Splitting off the lowest bit commutes with taking a remainder by a power of two. */
  lemma HalfMod(x: nat, m: nat)
    requires 0 < m
    ensures x % (2 * m) == 2 * ((x / 2) % m) + x % 2
  {
    var q, b := (x / 2) / m, (x / 2) % m;
    assert x / 2 == m * q + b;
    assert x == (2 * m) * q + (2 * b + x % 2);
    DivModUnique(x, 2 * m, q, 2 * b + x % 2);
  }

  // ---------------------------------------------------------------- masks are remainders

  /** Masking with 2^k - 1 is the remainder by 2^k. */
  lemma {:induction false} AndMask(x: nat, k: nat)
    ensures And(x, Pow2(k) - 1) == x % Pow2(k)
    decreases k
  {
    if k > 0 {
      AndMask(x / 2, k - 1);
      MaskBit(x, Pow2(k - 1));
    }
  }

  lemma MaskBit(x: nat, m: nat)
    requires 0 < m && And(x / 2, m - 1) == (x / 2) % m
    ensures And(x, 2 * m - 1) == x % (2 * m)
  {
    hide And;
    HalfMod(x, m);
    AndOdd(x, m - 1);
  }

  /** One step of `And` for an odd right operand. */
  lemma AndOdd(x: nat, h: nat)
    ensures And(x, 2 * h + 1) == 2 * And(x / 2, h) + x % 2
  {
    assert (2 * h + 1) / 2 == h && (2 * h + 1) % 2 == 1;
  }

  lemma {:induction false} AndBound(x: nat, y: nat)
    ensures And(x, y) <= x
  {
    if x != 0 && y != 0 {
      AndBound(x / 2, y / 2);
    }
  }

  /** One step of `And` for an even right operand. */
  lemma AndEven(x: nat, y: nat)
    requires y % 2 == 0
    ensures And(x, y) == 2 * And(x / 2, y / 2)
  {
  }

  lemma AndAllOnes(x: nat, w: nat)
    requires x < Pow2(w)
    ensures And(x, Pow2(w) - 1) == x
  {
    AndMask(x, w);
    DivModUnique(x, Pow2(w), 0, x);
  }

  /** Masking with the complement of 2^k - 1 rounds down to a multiple of 2^k. */
  lemma {:induction false} AndHighMask(x: nat, w: nat, k: nat)
    requires k <= w && x < Pow2(w)
    ensures Pow2(k) <= Pow2(w)
    ensures And(x, Pow2(w) - Pow2(k)) == x - x % Pow2(k)
    decreases k
  {
    hide And;
    Pow2Mono(k, w);
    if k == 0 {
      AndAllOnes(x, w);
    } else {
      AndHighMask(x / 2, w - 1, k - 1);
      HighMaskScaled(x, Pow2(w - 1), Pow2(k - 1), Pow2(w), Pow2(k));
    }
  }

  lemma HighMaskScaled(x: nat, p: nat, m: nat, p2: nat, m2: nat)
    requires 0 < m <= p && p2 == 2 * p && m2 == 2 * m
    requires And(x / 2, p - m) == x / 2 - (x / 2) % m
    ensures And(x, p2 - m2) == x - x % m2
  {
    hide And;
    HighMaskBit(x, p - m, m);
  }

  lemma HighMaskBit(x: nat, y: nat, m: nat)
    requires 0 < m && And(x / 2, y) == x / 2 - (x / 2) % m
    ensures And(x, 2 * y) == x - x % (2 * m)
  {
    hide And;
    AndEven(x, 2 * y);
    HalfMod(x, m);
  }

  /** Rounding down after adding `m - 1` rounds up. */
  lemma RoundUp(x: nat, m: nat, r: int)
    requires 0 < m
    requires r == (x + m - 1) - (x + m - 1) % m
    ensures r % m == 0 && r / m == (x + m - 1) / m && x <= r < x + m
  {
    var y := x + m - 1;
    assert r == m * (y / m) + 0;
    DivModUnique(r, m, y / m, 0);
  }

  /** ALIGN by a power of two is the least multiple at or above its argument. */
  lemma AlignPow2(x: u32, a: u32, k: nat)
    requires a == Pow2(k) && x + a - 1 < 0x1_0000_0000
    ensures Align(x, a) % a == 0
    ensures x <= Align(x, a) < x + a
    ensures Align(x, a) / a == (x + a - 1) / a
  {
    Pow2At32();
    AlignAt(x, a, k, 32);
    RoundUp(x, a, Align(x, a));
  }

  lemma AlignAt(x: u32, a: u32, k: nat, w: nat)
    requires a == Pow2(k) && x + a - 1 < 0x1_0000_0000 && Pow2(w) == 0x1_0000_0000
    ensures Align(x, a) == (x + a - 1) - (x + a - 1) % a
  {
    if k > w {
      Pow2Mono(w, k);
    }
    AndHighMask(x + a - 1, w, k);
  }
}
