/** Powers of sixteen, the width masks and the 64-bit register arithmetic.

    The register is a u64: `number <<= 4` keeps the product modulo 2^64,
    `number & HEX_MASKS[w]` keeps the low w nibbles and `number >> 4` drops
    the lowest nibble.  This module states those three operations on
    unbounded naturals and proves the facts the engines rely on. */
module Nibbles {

  /** One 64-bit register holds at most 2 * size_of::<u64>() = 16 nibbles. */
  const MAX_DIGITS: nat := 16

  /** 2^64: a left shift of the u64 register drops what leaves it. */
  const U64_MODULUS: nat := 0x1_0000_0000_0000_0000

  function Pow16(n: nat): (r: nat)
    ensures r >= 1
  {
    if n == 0 then 1 else 16 * Pow16(n - 1)
  }

  function Pow2(n: nat): (r: nat)
    ensures r >= 1
  {
    if n == 0 then 1 else 2 * Pow2(n - 1)
  }

  /** The mask table HEX_MASKS[0..=16]. */
  const HEX_MASKS: seq<nat> := [
    0x0000000000000000, 0x000000000000000f, 0x00000000000000ff, 0x0000000000000fff,
    0x000000000000ffff, 0x00000000000fffff, 0x0000000000ffffff, 0x000000000fffffff,
    0x00000000ffffffff, 0x0000000fffffffff, 0x000000ffffffffff, 0x00000fffffffffff,
    0x0000ffffffffffff, 0x000fffffffffffff, 0x00ffffffffffffff, 0x0fffffffffffffff,
    0xffffffffffffffff]

  /** Bitwise AND of two naturals, bit by bit from the lowest. */
  function BitAnd(x: nat, y: nat): nat
    decreases x
  {
    if x == 0 || y == 0 then 0 else 2 * BitAnd(x / 2, y / 2) + (x % 2) * (y % 2)
  }

  /** The low w nibbles of v, which is what `v & HEX_MASKS[w]` computes
      (lemma MaskIsBitAnd). */
  function Mask(v: nat, w: nat): (r: nat)
    ensures r < Pow16(w)
  {
    v % Pow16(w)
  }

  /** `u >> (4 * k)`: u without its low k nibbles, one nibble at a time. */
  function Drop(u: nat, k: nat): nat
  {
    if k == 0 then u else Drop(u / 16, k - 1)
  }

  /** `number <<= 4; number |= d` on the u64 register: the shift drops the top
      nibble modulo 2^64 and leaves the low nibble zero, so the OR with a
      nibble is an addition. */
  function Push(number: nat, d: nat): nat
  {
    (number * 16) % U64_MODULUS + d
  }

  /** HEX_MASKS[w] is 16^w - 1 for every width the table covers. */
  lemma HexMaskValue(w: nat)
    requires w <= MAX_DIGITS
    ensures HEX_MASKS[w] == Pow16(w) - 1
  {
    if w <= 8 {
      HexMaskLow(w);
    } else {
      HexMaskHigh(w);
    }
  }

  lemma HexMaskLow(w: nat)
    requires w <= 8
    ensures HEX_MASKS[w] == Pow16(w) - 1
  {
    if w == 0 {} else if w == 1 {} else if w == 2 {} else if w == 3 {} else if w == 4 {}
    else if w == 5 {} else if w == 6 {} else if w == 7 {} else {}
  }

  lemma HexMaskHigh(w: nat)
    requires 8 < w <= MAX_DIGITS
    ensures HEX_MASKS[w] == Pow16(w) - 1
  {
    if w == 9 {} else if w == 10 {} else if w == 11 {} else if w == 12 {}
    else if w == 13 {} else if w == 14 {} else if w == 15 {} else {}
  }

  lemma U64ModulusIsPow16()
    ensures U64_MODULUS == Pow16(MAX_DIGITS)
  {
    assert Pow16(4) == 0x1_0000;
    Pow16Add(4, 4);
    Pow16Add(8, 8);
  }

  lemma {:induction false} Pow16IsPow2(n: nat)
    ensures Pow16(n) == Pow2(4 * n)
  {
    if n > 0 {
      Pow16IsPow2(n - 1);
      var k := 4 * (n - 1);
      assert Pow2(k + 4) == 2 * Pow2(k + 3);
      assert Pow2(k + 3) == 2 * Pow2(k + 2);
      assert Pow2(k + 2) == 2 * Pow2(k + 1);
      assert Pow2(k + 1) == 2 * Pow2(k);
    }
  }

  lemma {:induction false} AndLowOnes(x: nat, k: nat)
    ensures BitAnd(x, Pow2(k) - 1) == x % Pow2(k)
  {
    if k == 0 || x == 0 {
    } else {
      var p := Pow2(k - 1);
      var m := Pow2(k) - 1;
      assert m / 2 == p - 1 && m % 2 == 1;
      AndLowOnes(x / 2, k - 1);
      assert BitAnd(x, m) == 2 * ((x / 2) % p) + x % 2;
      HalveMod(x, p);
    }
  }

  /** x mod 2p from the halves of x: (x mod 2p) = 2 ((x / 2) mod p) + x mod 2. */
  lemma HalveMod(x: nat, p: nat)
    requires p >= 1
    ensures x % (2 * p) == 2 * ((x / 2) % p) + x % 2
  {
    var h, b := x / 2, x % 2;
    assert x == 2 * h + b;
    var q, r := h / p, h % p;
    assert h == q * p + r;
    Scale(q, 2, p);
    assert x == q * (2 * p) + (2 * r + b);
    DivModUnique(x, q, 2 * r + b, 2 * p);
  }

  /** `v & HEX_MASKS[w]` keeps exactly the low w nibbles: it is v mod 16^w. */
  lemma MaskIsBitAnd(v: nat, w: nat)
    requires w <= MAX_DIGITS
    ensures BitAnd(v, HEX_MASKS[w]) == Mask(v, w)
  {
    HexMaskValue(w);
    Pow16IsPow2(w);
    AndLowOnes(v, 4 * w);
  }

  // ---- arithmetic helpers ----

  lemma MulAtLeast(a: int, m: int)
    requires a >= 1 && m > 0
    ensures a * m >= m
  {
  }

  lemma MulMono(a: nat, b: nat, m: nat)
    requires a <= b
    ensures a * m <= b * m
  {
  }

  lemma Distrib(a: int, b: int, m: int)
    ensures (a + b) * m == a * m + b * m
  {
  }

  lemma Scale(q: int, c: int, m: int)
    ensures q * (c * m) == (c * q) * m == c * (q * m)
  {
  }

  lemma DivModUnique(x: int, q: int, r: int, m: int)
    requires m > 0 && 0 <= r < m && x == q * m + r
    ensures x / m == q && x % m == r
  {
    var q0, r0 := x / m, x % m;
    assert x == q0 * m + r0;
    assert (q - q0) * m == r0 - r by {
      assert q * m - q0 * m == (q - q0) * m;
    }
    if q > q0 {
      MulAtLeast(q - q0, m);
    } else if q < q0 {
      MulAtLeast(q0 - q, m);
    }
  }

  lemma {:induction false} Pow16Add(a: nat, b: nat)
    ensures Pow16(a + b) == Pow16(a) * Pow16(b)
  {
    if b > 0 {
      Pow16Add(a, b - 1);
      assert Pow16(a + b) == 16 * Pow16(a + b - 1);
    }
  }

  lemma Pow16Split(a: nat, b: nat)
    requires a <= b
    ensures Pow16(b) == Pow16(b - a) * Pow16(a)
  {
    Pow16Add(a, b - a);
  }

  lemma Pow16Monotone(a: nat, b: nat)
    requires a <= b
    ensures Pow16(a) <= Pow16(b)
  {
    var pa, pd := Pow16(a), Pow16(b - a);
    MulAtLeast(pd, pa);
    Pow16Split(a, b);
  }

  /** Reducing modulo a multiple and then modulo the factor is reducing
      modulo the factor. */
  lemma ModOfMultiple(x: nat, m: nat, k: nat)
    requires m > 0 && k > 0
    ensures (x % (m * k)) % m == x % m
  {
    var mk := m * k;
    var q, r := x / mk, x % mk;
    assert x == q * mk + r;
    var r1, r0 := r / m, r % m;
    assert r == r1 * m + r0;
    assert q * mk == (q * k) * m;
    assert x == (q * k + r1) * m + r0;
    DivModUnique(x, q * k + r1, r0, m);
  }

  /** Taking the low a nibbles of the low b nibbles, a <= b. */
  lemma MaskOfMask(x: nat, a: nat, b: nat)
    requires a <= b
    ensures Mask(Mask(x, b), a) == Mask(x, a)
  {
    var pa, pd := Pow16(a), Pow16(b - a);
    Pow16Split(a, b);
    assert Pow16(b) == pa * pd;
    ModOfMultiple(x, pa, pd);
  }

  /** Shifting one nibble d in at the bottom of a: the low k nibbles of the
      result are the low k - 1 nibbles of a followed by d. */
  lemma ShiftInMask(a: nat, d: nat, k: nat)
    requires k >= 1 && d < 16
    ensures Mask(a * 16 + d, k) == Mask(a, k - 1) * 16 + d
  {
    var m := Pow16(k - 1);
    var q, r := a / m, a % m;
    assert a == q * m + r;
    assert Pow16(k) == 16 * m;
    assert r <= m - 1;
    assert r * 16 <= (m - 1) * 16;
    assert r * 16 + d < 16 * m;
    assert a * 16 == q * (16 * m) + r * 16;
    DivModUnique(a * 16 + d, q, r * 16 + d, 16 * m);
  }

  /** Pushing a nibble into the register and masking to k <= 16 nibbles
      ignores the wrap-around at 2^64. */
  lemma PushMask(number: nat, d: nat, k: nat)
    requires 1 <= k <= MAX_DIGITS && d < 16
    ensures Mask(Push(number, d), k) == Mask(number, k - 1) * 16 + d
  {
    var x := number * 16;
    var y := x % U64_MODULUS;
    var m := Pow16(k);
    WrapKeepsMask(x, k);
    assert y % m == x % m;
    ShiftInMask(number, 0, k);
    ShiftInMask(number, 15, k);
    AddBelowMask(y, d, m, Mask(number, k - 1) * 16);
  }

  /** Reducing modulo 2^64 does not change the low k <= 16 nibbles. */
  lemma WrapKeepsMask(x: nat, k: nat)
    requires k <= MAX_DIGITS
    ensures (x % U64_MODULUS) % Pow16(k) == x % Pow16(k)
  {
    U64ModulusIsPow16();
    ModOfPow16(x, k, MAX_DIGITS);
  }

  lemma ModOfPow16(x: nat, a: nat, b: nat)
    requires a <= b
    ensures (x % Pow16(b)) % Pow16(a) == x % Pow16(a)
  {
    MaskOfMask(x, a, b);
  }

  /** Adding a small d to y whose residue leaves room for it. */
  lemma AddBelowMask(y: nat, d: nat, m: nat, lo: nat)
    requires m > 0 && y % m == lo && lo + d < m
    ensures (y + d) % m == lo + d
  {
    var q := y / m;
    assert y == q * m + lo;
    DivModUnique(y + d, q, lo + d, m);
  }

  /** A pushed register still fits in 64 bits. */
  lemma PushBound(number: nat, d: nat)
    requires d < 16
    ensures Push(number, d) < U64_MODULUS
  {
    var x := number * 16;
    var k := U64_MODULUS / 16;
    assert U64_MODULUS == 16 * k;
    ModOfMultiple(x, 16, k);
    DivModUnique(x, number, 0, 16);
    var r := x % U64_MODULUS;
    var q := r / 16;
    assert r == 16 * q;
    assert q < k;
  }

  /** Dividing by a and then by b divides by a * b. */
  lemma DivDiv(x: nat, a: nat, b: nat)
    requires a > 0 && b > 0
    ensures (x / a) / b == x / (a * b)
  {
    var q1, r1 := x / a, x % a;
    var q2, r2 := q1 / b, q1 % b;
    assert x == q1 * a + r1;
    assert q1 == q2 * b + r2;
    assert r2 * a + r1 < a * b by {
      MulMono(r2, b - 1, a);
      assert (b - 1) * a == a * b - a;
    }
    assert x == q2 * (a * b) + (r2 * a + r1) by {
      Distrib(q2 * b, r2, a);
      Scale(q2, b, a);
    }
    DivModUnique(x, q2, r2 * a + r1, a * b);
  }

  /** Dropping k nibbles is dividing by 16^k. */
  lemma {:induction false} DropIsDiv(u: nat, k: nat)
    ensures Drop(u, k) == u / Pow16(k)
  {
    if k > 0 {
      DropIsDiv(u / 16, k - 1);
      DivDiv(u, 16, Pow16(k - 1));
    }
  }

  /** Dividing by 16^a and then by 16 divides by 16^(a+1). */
  lemma DivDiv16(x: nat, a: nat)
    ensures (x / Pow16(a)) / 16 == x / Pow16(a + 1)
  {
    var m := Pow16(a);
    var q, r := x / m, x % m;
    assert x == q * m + r;
    var q1, q0 := q / 16, q % 16;
    assert q == 16 * q1 + q0;
    assert Pow16(a + 1) == 16 * m;
    MulMono(q0, 15, m);
    assert q0 * m + r < 16 * m;
    Distrib(16 * q1, q0, m);
    Scale(q1, 16, m);
    assert q * m == q1 * (16 * m) + q0 * m;
    DivModUnique(x, q1, q0 * m + r, 16 * m);
  }
}
