/** The word operations of MD5 (sections 2 and 3.4 of RFC 1321) as the driver's macros compute them,
    and what they mean bit by bit. */
module Md5Bits {
  import opened Words

  // ---------------------------------------------------------------- operators keep their width

  lemma {:induction false} OrXorBound(x: nat, y: nat, k: nat)
    requires x < Pow2(k) && y < Pow2(k)
    ensures Or(x, y) < Pow2(k) && Xor(x, y) < Pow2(k)
  {
    if x != 0 && y != 0 {
      OrXorBound(x / 2, y / 2, k - 1);
    }
  }

  function And32(x: u32, y: u32): u32 {
    AndBound(x, y);
    And(x, y)
  }

  function Or32(x: u32, y: u32): u32 {
    Pow2At32();
    OrXorBound(x, y, 32);
    Or(x, y)
  }

  function Xor32(x: u32, y: u32): u32 {
    Pow2At32();
    OrXorBound(x, y, 32);
    Xor(x, y)
  }

  // ---------------------------------------------------------------- the four auxiliary functions

  function F(x: u32, y: u32, z: u32): u32 {
    Or32(And32(x, y), And32(Not32(x), z))
  }

  function G(x: u32, y: u32, z: u32): u32 {
    Or32(And32(x, z), And32(y, Not32(z)))
  }

  function H(x: u32, y: u32, z: u32): u32 {
    Xor32(Xor32(x, y), z)
  }

  function I(x: u32, y: u32, z: u32): u32 {
    Xor32(y, Or32(x, Not32(z)))
  }

  /** The word of `n` bits whose bits are `f` of the bits of `x`, `y` and `z`. */
  ghost function Bitwise(f: (bool, bool, bool) -> bool, x: nat, y: nat, z: nat, n: nat): nat {
    if n == 0 then 0
    else 2 * Bitwise(f, x / 2, y / 2, z / 2, n - 1) + (if f(x % 2 == 1, y % 2 == 1, z % 2 == 1) then 1 else 0)
  }

  function NotN(x: nat, n: nat): nat
    requires x < Pow2(n)
  {
    Pow2(n) - 1 - x
  }

  lemma NotHalf(x: nat, n: nat)
    requires n > 0 && x < Pow2(n)
    ensures x / 2 < Pow2(n - 1) && NotN(x, n) / 2 == NotN(x / 2, n - 1) && NotN(x, n) % 2 == 1 - x % 2
  {
  }

  lemma {:induction false} AndBit(x: nat, y: nat)
    ensures And(x, y) / 2 == And(x / 2, y / 2)
    ensures And(x, y) % 2 == if x % 2 == 1 && y % 2 == 1 then 1 else 0
  {
  }

  lemma {:induction false} OrBit(x: nat, y: nat)
    ensures Or(x, y) / 2 == Or(x / 2, y / 2)
    ensures Or(x, y) % 2 == if x % 2 == 1 || y % 2 == 1 then 1 else 0
  {
  }

  lemma {:induction false} XorBit(x: nat, y: nat)
    ensures Xor(x, y) / 2 == Xor(x / 2, y / 2)
    ensures Xor(x, y) % 2 == if x % 2 != y % 2 then 1 else 0
  {
  }

  /** F selects: where a bit of x is set the bit of y, elsewhere that of z. */
  lemma {:induction false} FSelects(x: nat, y: nat, z: nat, n: nat)
    requires x < Pow2(n) && y < Pow2(n) && z < Pow2(n)
    ensures Or(And(x, y), And(NotN(x, n), z)) == Bitwise((p, q, r) => if p then q else r, x, y, z, n)
  {
    if n > 0 {
      FSelects(x / 2, y / 2, z / 2, n - 1);
      NotHalf(x, n);
      AndBit(x, y);
      AndBit(NotN(x, n), z);
      OrBit(And(x, y), And(NotN(x, n), z));
    }
  }

  /** G selects by the bits of z. */
  lemma {:induction false} GSelects(x: nat, y: nat, z: nat, n: nat)
    requires x < Pow2(n) && y < Pow2(n) && z < Pow2(n)
    ensures Or(And(x, z), And(y, NotN(z, n))) == Bitwise((p, q, r) => if r then p else q, x, y, z, n)
  {
    if n > 0 {
      GSelects(x / 2, y / 2, z / 2, n - 1);
      NotHalf(z, n);
      AndBit(x, z);
      AndBit(y, NotN(z, n));
      OrBit(And(x, z), And(y, NotN(z, n)));
    }
  }

  /** H is the parity of the three bits. */
  lemma {:induction false} HParity(x: nat, y: nat, z: nat, n: nat)
    requires x < Pow2(n) && y < Pow2(n) && z < Pow2(n)
    ensures Xor(Xor(x, y), z) == Bitwise((p, q, r) => (p != q) != r, x, y, z, n)
  {
    if n > 0 {
      HParity(x / 2, y / 2, z / 2, n - 1);
      XorBit(x, y);
      XorBit(Xor(x, y), z);
    }
  }

  lemma {:induction false} IBits(x: nat, y: nat, z: nat, n: nat)
    requires x < Pow2(n) && y < Pow2(n) && z < Pow2(n)
    ensures Xor(y, Or(x, NotN(z, n))) == Bitwise((p, q, r) => q != (p || !r), x, y, z, n)
  {
    if n > 0 {
      IBits(x / 2, y / 2, z / 2, n - 1);
      NotHalf(z, n);
      OrBit(x, NotN(z, n));
      XorBit(y, Or(x, NotN(z, n)));
    }
  }

  /** The four macros, bit by bit. */
  lemma AuxiliaryFunctions(x: u32, y: u32, z: u32)
    ensures F(x, y, z) == Bitwise((p, q, r) => if p then q else r, x, y, z, 32)
    ensures G(x, y, z) == Bitwise((p, q, r) => if r then p else q, x, y, z, 32)
    ensures H(x, y, z) == Bitwise((p, q, r) => (p != q) != r, x, y, z, 32)
    ensures I(x, y, z) == Bitwise((p, q, r) => q != (p || !r), x, y, z, 32)
  {
    hide And, Or, Pow2;
    Pow2At32();
    FSelects(x, y, z, 32);
    GSelects(x, y, z, 32);
    HParity(x, y, z, 32);
    IBits(x, y, z, 32);
  }

  // ---------------------------------------------------------------- shifts

  /** Joining two words whose bits do not overlap adds them. */
  lemma {:induction false} OrAdds(x: nat, y: nat, k: nat)
    requires x < Pow2(k)
    ensures Or(x, y * Pow2(k)) == x + y * Pow2(k)
  {
    if k > 0 {
      OrAdds(x / 2, y, k - 1);
      TwiceProduct(y, Pow2(k - 1));
      OrAddsBit(x, y * Pow2(k - 1));
    }
  }

  lemma TwiceProduct(y: nat, p: nat)
    ensures y * (2 * p) == 2 * (y * p)
  {
  }

  lemma OrAddsBit(x: nat, h: nat)
    requires Or(x / 2, h) == x / 2 + h
    ensures Or(x, 2 * h) == x + 2 * h
  {
    OrBit(x, 2 * h);
    assert (2 * h) / 2 == h && (2 * h) % 2 == 0;
  }

  lemma {:induction false} OrCommutes(x: nat, y: nat)
    ensures Or(x, y) == Or(y, x)
  {
    if x != 0 && y != 0 {
      OrCommutes(x / 2, y / 2);
    }
  }

  /** ROTATE_LEFT */
  function RotateLeft(x: u32, n: nat): u32
    requires 0 < n < 32
  {
    DivShrinks(x, Pow2(32 - n));
    Or32(Wrap32(x * Pow2(n)), x / Pow2(32 - n))
  }

  /** The upper `n` bits change places with the lower `32 - n`. */
  lemma RotateSwapsParts(hi: nat, lo: nat, n: nat)
    requires 0 < n < 32 && hi < Pow2(n) && lo < Pow2(32 - n)
    ensures hi * Pow2(32 - n) + lo < 0x1_0000_0000
    ensures RotateLeft(hi * Pow2(32 - n) + lo, n) == lo * Pow2(n) + hi
  {
    Pow2At32();
    Pow2Add(n, 32 - n);
    ShiftedParts(hi, lo, Pow2(n), Pow2(32 - n), 0x1_0000_0000);
    OrAdds(hi, lo, n);
    OrCommutes(lo * Pow2(n), hi);
  }

  lemma Distribute(a: nat, b: nat, q: nat)
    ensures (a + b) * q == a * q + q * b
  {
  }

  lemma Below(hi: nat, lo: nat, p: nat, q: nat)
    requires hi < p && lo < q
    ensures hi * q + lo < p * q
  {
    Distribute(hi, p - hi, q);
    MulAtLeast(q, p - hi);
  }

  lemma Regroup(hi: nat, lo: nat, p: nat, q: nat)
    ensures (hi * q + lo) * p == (p * q) * hi + lo * p
  {
    assert (hi * q) * p == (p * q) * hi;
  }

  lemma ShiftedParts(hi: nat, lo: nat, p: nat, q: nat, w: nat)
    requires hi < p && lo < q && p * q == w
    ensures var x := hi * q + lo; x < w && (x * p) % w == lo * p && x / q == hi
  {
    Below(hi, lo, p, q);
    Below(lo, 0, q, p);
    Regroup(hi, lo, p, q);
    var t, u := lo * p, hi * q + lo;
    DivModUnique(u * p, w, hi, t);
    DivModUnique(u, q, hi, lo);
  }
}
