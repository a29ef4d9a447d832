/** Unsigned machine words as naturals: the C operators `&`, `|`, `<<` and `>>`, bit by bit,
    and the arithmetic they amount to when masks are contiguous and fields do not overlap. */
module Bits {

  const U16 := 0x1_0000
  const U32 := 0x1_0000_0000

  type u8 = x: nat | x < 0x100
  type u32 = x: nat | x < U32

  function Pow2(k: nat): (p: nat)
    ensures p > 0
  {
    if k == 0 then 1 else 2 * Pow2(k - 1)
  }

  function And(a: nat, b: nat): nat {
    if a == 0 || b == 0 then 0
    else 2 * And(a / 2, b / 2) + (if a % 2 == 1 && b % 2 == 1 then 1 else 0)
  }

  function Or(a: nat, b: nat): nat {
    if a == 0 then b
    else if b == 0 then a
    else 2 * Or(a / 2, b / 2) + (if a % 2 == 1 || b % 2 == 1 then 1 else 0)
  }

  /** `a << k` on 32 bits. */
  function Shl(a: nat, k: nat): u32 {
    if k == 0 then a % U32 else (2 * Shl(a, k - 1)) % U32
  }

  /** `a >> k`. */
  function Shr(a: nat, k: nat): nat {
    if k == 0 then a else Shr(a / 2, k - 1)
  }

  lemma HalfMod(b: nat, p: nat)
    requires p > 0
    ensures b % (2 * p) == 2 * ((b / 2) % p) + b % 2
  {
    var h := b / 2;
    var q, r := h / p, h % p;
    assert b == (2 * p) * q + (2 * r + b % 2) by {
      assert h == p * q + r;
      assert b == 2 * h + b % 2;
    }
    assert 0 <= 2 * r + b % 2 < 2 * p;
    DivModUnique(b, 2 * p, q, 2 * r + b % 2);
  }

  /** Quotient and remainder are determined by their defining equation. */
  lemma DivModUnique(a: nat, d: nat, q: nat, r: nat)
    requires a == d * q + r && r < d
    ensures a / d == q && a % d == r
  {
    var q', r' := a / d, a % d;
    assert d * q + r == d * q' + r';
    if q != q' {
      MulGap(d, q, q');
      assert false;
    }
  }

  lemma MulGap(d: nat, x: nat, y: nat)
    requires x != y
    ensures d * x >= d * y + d || d * y >= d * x + d
  {
    if x > y {
      MulMonotone(d, y + 1, x);
    } else {
      MulMonotone(d, x + 1, y);
    }
  }

  lemma {:induction false} MulMonotone(d: nat, x: nat, y: nat)
    requires x <= y
    ensures d * x <= d * y
    decreases y - x
  {
    if x < y {
      MulMonotone(d, x + 1, y);
      assert d * (x + 1) == d * x + d;
    }
  }

  /** Fields that do not overlap: `|` is `+`, whichever operand is the high one. */
  lemma {:induction false} OrAdds(low: nat, high: nat, k: nat)
    requires low < Pow2(k) && high % Pow2(k) == 0
    ensures Or(low, high) == Or(high, low) == low + high
  {
    if k > 0 && low > 0 && high > 0 {
      HalfMod(high, Pow2(k - 1));
      OrAdds(low / 2, high / 2, k - 1);
    }
  }

  lemma MultipleMod(x: nat, p: nat)
    requires p > 0
    ensures (x * p) % p == 0
  {
    assert x * p == p * x;
    DivModUnique(x * p, p, x, 0);
  }

  lemma AndStep(a: nat, b: nat)
    ensures And(a, b) == 2 * And(a / 2, b / 2) + (if a % 2 == 1 && b % 2 == 1 then 1 else 0)
  {}

  /** Masking with 2^k - 1 keeps the low k bits. */
  lemma {:induction false} AndLowMask(a: nat, k: nat)
    ensures And(a, Pow2(k) - 1) == a % Pow2(k)
  {
    if k == 0 {
      assert Pow2(0) == 1;
    } else {
      var p := Pow2(k - 1);
      assert Pow2(k) == 2 * p;
      AndLowMask(a / 2, k - 1);
      AndStep(a, 2 * p - 1);
      assert (2 * p - 1) / 2 == p - 1 && (2 * p - 1) % 2 == 1;
      HalfMod(a, p);
    }
  }

  /** Testing bit k with a one-bit mask. */
  lemma {:induction false} AndOneBit(a: nat, k: nat)
    ensures And(a, Pow2(k)) != 0 <==> (a / Pow2(k)) % 2 == 1
  {
    if k == 0 {
      AndStep(a, 1);
    } else {
      var p := Pow2(k - 1);
      assert Pow2(k) == 2 * p;
      AndOneBit(a / 2, k - 1);
      AndStep(a, 2 * p);
      assert (2 * p) / 2 == p;
      HalfDiv(a, p);
    }
  }

  lemma HalfDiv(b: nat, p: nat)
    requires p > 0
    ensures b / (2 * p) == (b / 2) / p
  {
    var h := b / 2;
    var q, r := h / p, h % p;
    assert h == p * q + r;
    assert b == (2 * p) * q + (2 * r + b % 2);
    DivModUnique(b, 2 * p, q, 2 * r + b % 2);
  }

  lemma TimesTwice(a: nat, half: nat)
    ensures a * (2 * half) == 2 * (a * half)
  {}

  lemma ShlStep(a: nat, k: nat, x: nat)
    requires k > 0 && Shl(a, k - 1) == x && 2 * x < U32
    ensures Shl(a, k) == 2 * x
  {}

  /** A left shift multiplies, as long as no bit is lost. */
  lemma {:induction false} ShlIs(a: nat, k: nat, p: nat)
    requires Pow2(k) == p && a * p < U32
    ensures Shl(a, k) == a * p
  {
    if k > 0 {
      var half := Pow2(k - 1);
      var x := a * half;
      TimesTwice(a, half);
      ShlIs(a, k - 1, half);
      ShlStep(a, k, x);
    }
  }

  /** Or-ing a field in below everything already there. */
  lemma OrField(high: nat, field: nat, k: nat, p: nat, top: nat, q: nat)
    requires Pow2(k) == p && Pow2(top) == q && field * p < q <= U32 && high % q == 0
    ensures Or(high, Shl(field, k)) == high + field * p
  {
    ShlIs(field, k, p);
    OrAdds(field * p, high, top);
  }

  /** A right shift divides, rounding down. */
  lemma {:induction false} ShrDivides(a: nat, k: nat)
    ensures Shr(a, k) == a / Pow2(k)
  {
    if k > 0 {
      ShrDivides(a / 2, k - 1);
      HalfDiv(a, Pow2(k - 1));
    }
  }

  /** The largest power of two that divides n. */
  function LowBit(n: nat): (p: nat)
    requires n > 0
    ensures p > 0
  {
    if n % 2 == 1 then 1 else 2 * LowBit(n / 2)
  }

  lemma {:induction false} LowBitIs(n: nat) returns (j: nat, odd: nat)
    requires n > 0
    ensures LowBit(n) == Pow2(j) && n == odd * Pow2(j) && odd % 2 == 1
  {
    if n % 2 == 1 {
      j, odd := 0, n;
    } else {
      j, odd := LowBitIs(n / 2);
      assert n == 2 * (odd * Pow2(j)) == odd * (2 * Pow2(j));
      j := j + 1;
    }
  }

  lemma {:induction false} Pow2Product(j: nat, k: nat)
    ensures Pow2(j) * Pow2(k) == Pow2(j + k)
  {
    if j > 0 {
      Pow2Product(j - 1, k);
      TimesTwice(Pow2(k), Pow2(j - 1));
    }
  }

  lemma {:induction false} Pow2Grows(j: nat, k: nat)
    requires j <= k
    ensures Pow2(j) <= Pow2(k)
    decreases k
  {
    if j < k {
      Pow2Grows(j, k - 1);
    }
  }

  /** Modulo 2^k the multiples of an odd number reach every residue. */
  lemma {:induction false} OddReaches(odd: nat, k: nat, c: nat) returns (b: nat, q: int)
    requires odd % 2 == 1
    ensures b < Pow2(k) && odd * b == c + q * Pow2(k)
  {
    if k == 0 {
      b, q := 0, -(c as int);
    } else {
      b, q := OddReaches(odd, k - 1, c);
      b, q := ReachTwice(odd, b, c, q, Pow2(k - 1));
    }
  }

  lemma ReachTwice(odd: nat, b: nat, c: nat, q: int, p: nat) returns (b': nat, q': int)
    requires odd % 2 == 1 && b < p && odd * b == c + q * p
    ensures b' < 2 * p && odd * b' == c + q' * (2 * p)
  {
    if q % 2 == 0 {
      b', q' := b, q / 2;
      HalfTimes(q, p);
    } else {
      b', q' := b + p, (q + odd) / 2;
      HalfTimes(q + odd, p);
      Distribute(odd, b, p);
      Distribute(p, q, odd);
    }
  }

  lemma HalfTimes(n: int, p: nat)
    requires n % 2 == 0
    ensures (n / 2) * (2 * p) == n * p
  {
    var h := n / 2;
    assert n == 2 * h;
  }

  lemma Distribute(a: int, x: int, y: int)
    ensures a * (x + y) == a * x + a * y && (x + y) * a == x * a + y * a
  {}

  lemma OddTimes(odd: nat, b: nat)
    requires odd % 2 == 1
    ensures (odd * b) % 2 == b % 2 && (b % 2 == 0 ==> (odd * b) / 2 == odd * (b / 2))
  {
    var h := b / 2;
    assert b == 2 * h + b % 2;
    Distribute(odd, 2 * h, b % 2);
    assert odd * (2 * h) == 2 * (odd * h);
  }

  /** No multiple of an odd number by less than 2^k is a multiple of 2^k. */
  lemma {:induction false} OddNeverVanishes(odd: nat, b: nat, k: nat)
    requires odd % 2 == 1 && 0 < b < Pow2(k)
    ensures (odd * b) % Pow2(k) != 0
    decreases k
  {
    HalfMod(odd * b, Pow2(k - 1));
    OddTimes(odd, b);
    if b % 2 == 0 {
      OddNeverVanishes(odd, b / 2, k - 1);
    }
  }

  lemma Pow2Values()
    ensures Pow2(0) == 1 && Pow2(2) == 4 && Pow2(4) == 0x10 && Pow2(5) == 0x20 && Pow2(6) == 0x40 && Pow2(7) == 0x80
    ensures Pow2(8) == 0x100 && Pow2(11) == 0x800 && Pow2(16) == 0x1_0000 && Pow2(18) == 0x4_0000
    ensures Pow2(24) == 0x100_0000 && Pow2(29) == 0x2000_0000 && Pow2(31) == 0x8000_0000 && Pow2(32) == U32
  {}
}
