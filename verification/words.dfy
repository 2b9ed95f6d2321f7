/**
  Machine words as natural numbers.  Every shift, mask and truncation of the modelled code is written out
  as division, remainder and multiplication by powers of two; `&`, `|` and `^` are defined bit by bit.
*/
module Words {

  type byte = x: int | 0 <= x < 256

  datatype Option<T> = None | Some(value: T)

  type word = x: nat | x < 0x1_0000_0000_0000_0000

  const TWO32: nat := 0x1_0000_0000
  const TWO63: nat := 0x8000_0000_0000_0000
  const TWO64: nat := 0x1_0000_0000_0000_0000

  function Min(a: nat, b: nat): nat { if a < b then a else b }

  function Max(a: nat, b: nat): nat { if a > b then a else b }

  function Pow2(n: nat): (p: nat)
    ensures p > 0
  {
    if n == 0 then 1 else 2 * Pow2(n - 1)
  }

  lemma {:induction false} Pow2Add(m: nat, n: nat)
    ensures Pow2(m + n) == Pow2(m) * Pow2(n)
  {
    if m > 0 {
      Pow2Add(m - 1, n);
      assert Pow2(m + n) == 2 * (Pow2(m - 1) * Pow2(n)) == (2 * Pow2(m - 1)) * Pow2(n);
    }
  }

  lemma {:induction false} Pow2Monotone(m: nat, n: nat)
    requires m <= n
    ensures Pow2(m) <= Pow2(n)
  {
    if m < n { Pow2Monotone(m, n - 1); }
  }

  lemma Pow2Words()
    ensures Pow2(8) == 256 && Pow2(16) == 65536 && Pow2(32) == TWO32 && Pow2(63) == TWO63 && Pow2(64) == TWO64
  {
    assert Pow2(8) == 0x100;
    assert Pow2(16) == 0x1_0000;
    assert Pow2(24) == 0x100_0000;
    assert Pow2(32) == TWO32;
    assert Pow2(40) == 0x100_0000_0000;
    assert Pow2(48) == 0x1_0000_0000_0000;
    assert Pow2(56) == 0x100_0000_0000_0000;
  }

  /** `x << k` before truncation. */
  function Shl(x: int, k: nat): int
    decreases k
  {
    if k == 0 then x else 2 * Shl(x, k - 1)
  }

  /** `x >> k`. */
  function Shr(x: int, k: nat): int
    decreases k
  {
    if k == 0 then x else Shr(x / 2, k - 1)
  }

  /** The low `k` bits of `x` are clear. */
  predicate LowClear(x: int, k: nat)
    decreases k
  {
    k == 0 || (x % 2 == 0 && LowClear(x / 2, k - 1))
  }

  lemma {:induction false} ShlIsProduct(x: int, k: nat)
    ensures Shl(x, k) == x * Pow2(k)
  {
    if k > 0 {
      ShlIsProduct(x, k - 1);
      MulRotate2(x, Pow2(k - 1));
    }
  }

  lemma MulRotate2(x: int, p: int)
    ensures 2 * (x * p) == x * (2 * p)
  {
  }

  lemma {:induction false} ShrIsQuotient(x: nat, k: nat)
    ensures Shr(x, k) == x / Pow2(k)
  {
    if k > 0 {
      ShrIsQuotient(x / 2, k - 1);
      HalfRemainder(x, k);
    }
  }

  lemma {:induction false} ShrNonNegative(x: nat, k: nat)
    ensures Shr(x, k) >= 0
  {
    if k > 0 { ShrNonNegative(x / 2, k - 1); }
  }

  lemma {:induction false} ShrAdd(x: int, m: nat, n: nat)
    ensures Shr(x, m + n) == Shr(Shr(x, m), n)
    decreases m
  {
    if m > 0 { ShrAdd(x / 2, m - 1, n); }
  }

  lemma {:induction false} LowClearMultiple(x: nat, k: nat)
    ensures LowClear(x, k) <==> x % Pow2(k) == 0
  {
    if k > 0 {
      LowClearMultiple(x / 2, k - 1);
      HalfRemainder(x, k);
    }
  }

  lemma {:induction false} ShlAdd(x: int, m: nat, n: nat)
    ensures Shl(x, m + n) == Shl(Shl(x, m), n)
  {
    if n > 0 { ShlAdd(x, m, n - 1); }
  }

  lemma {:induction false} ShlSum(x: int, y: int, k: nat)
    ensures Shl(x + y, k) == Shl(x, k) + Shl(y, k)
  {
    if k > 0 { ShlSum(x, y, k - 1); }
  }

  lemma {:induction false} ShlScale(c: int, x: int, k: nat)
    ensures Shl(c * x, k) == c * Shl(x, k)
  {
    ShlIsProduct(c * x, k);
    ShlIsProduct(x, k);
    assert (c * x) * Pow2(k) == c * (x * Pow2(k));
  }

  lemma {:induction false} ShlNonNegative(x: nat, k: nat)
    ensures Shl(x, k) >= x
  {
    if k > 0 { ShlNonNegative(x, k - 1); }
  }

  /** Bit `i` of `x`, counted from the least significant. */
  predicate Bit(x: nat, i: nat) {
    if i == 0 then x % 2 == 1 else Bit(x / 2, i - 1)
  }

  function And(a: nat, b: nat): nat {
    if a == 0 || b == 0 then 0 else (if a % 2 == 1 && b % 2 == 1 then 1 else 0) + 2 * And(a / 2, b / 2)
  }

  function Or(a: nat, b: nat): nat
    decreases a + b
  {
    if a == 0 then b else if b == 0 then a else
      (if a % 2 == 1 || b % 2 == 1 then 1 else 0) + 2 * Or(a / 2, b / 2)
  }

  function Xor(a: nat, b: nat): nat
    decreases a + b
  {
    if a == 0 then b else if b == 0 then a else
      (if a % 2 != b % 2 then 1 else 0) + 2 * Xor(a / 2, b / 2)
  }

  /** Bit by bit, and, or and exclusive or are those of the truth values. */
  lemma {:induction false} BitwiseAt(a: nat, b: nat, i: nat)
    ensures Bit(And(a, b), i) <==> Bit(a, i) && Bit(b, i)
    ensures Bit(Or(a, b), i) <==> Bit(a, i) || Bit(b, i)
    ensures Bit(Xor(a, b), i) <==> Bit(a, i) != Bit(b, i)
  {
    AndHalves(a, b);
    OrHalves(a, b);
    XorHalves(a, b);
    if i > 0 { BitwiseAt(a / 2, b / 2, i - 1); }
  }

  lemma OrHalves(a: nat, b: nat)
    ensures Or(a, b) / 2 == Or(a / 2, b / 2)
    ensures Or(a, b) % 2 == if a % 2 == 1 || b % 2 == 1 then 1 else 0
  {
  }

  /** Bit `i` is what stands at the low end after a shift by `i`. */
  lemma {:induction false} BitIsShifted(x: nat, i: nat)
    ensures Bit(x, i) <==> Shr(x, i) % 2 == 1
  {
    if i > 0 { BitIsShifted(x / 2, i - 1); }
  }

  lemma {:induction false} XorTwice(a: nat, b: nat)
    ensures Xor(Xor(a, b), b) == a
    decreases a + b
  {
    if a > 0 && b > 0 {
      XorHalves(a, b);
      XorTwice(a / 2, b / 2);
      XorHalves(Xor(a, b), b);
    } else if b > 0 {
      XorSame(b);
    }
  }

  lemma {:induction false} XorSame(b: nat)
    ensures Xor(b, b) == 0
  {
    if b > 0 { XorSame(b / 2); }
  }

  /** Or of words with no bit in common is their sum: `a` has its low `k` bits clear and `b` fits in them. */
  lemma {:induction false} OrDisjoint(a: nat, b: nat, k: nat)
    requires LowClear(a, k) && b < Pow2(k)
    ensures Or(a, b) == a + b
  {
    if k > 0 && a > 0 && b > 0 { OrDisjoint(a / 2, b / 2, k - 1); }
  }

  lemma XorHalves(a: nat, b: nat)
    ensures Xor(a, b) == (if a % 2 != b % 2 then 1 else 0) + 2 * Xor(a / 2, b / 2)
    ensures Xor(a, b) / 2 == Xor(a / 2, b / 2) && Xor(a, b) % 2 == if a % 2 != b % 2 then 1 else 0
  {
  }

  lemma AndHalves(a: nat, b: nat)
    ensures And(a, b) == (if a % 2 == 1 && b % 2 == 1 then 1 else 0) + 2 * And(a / 2, b / 2)
    ensures And(a, b) / 2 == And(a / 2, b / 2) && And(a, b) % 2 == if a % 2 == 1 && b % 2 == 1 then 1 else 0
  {
  }

  /** A mask of `m` ones is a remainder. */
  lemma {:induction false} AndMask(c: nat, m: nat)
    ensures And(c, Pow2(m) - 1) == c % Pow2(m)
  {
    if m > 0 {
      var ones := Pow2(m) - 1;
      assert ones / 2 == Pow2(m - 1) - 1 && ones % 2 == 1;
      AndHalves(c, ones);
      AndMask(c / 2, m - 1);
      HalfRemainder(c, m);
    }
  }

  lemma SmallRemainder(c: nat, p: nat)
    requires c < p
    ensures c % p == c
  {
    DivModUnique(c, p, 0, c);
  }

  /** A shift below 8 multiplies by one of eight constants; `Pow2(8 - bit)` is the cofactor in 256. */
  lemma ShiftFactor(bit: nat)
    requires bit < 8
    ensures var q, r := Pow2(bit), Pow2(8 - bit);
      || (q == 1 && r == 256) || (q == 2 && r == 128) || (q == 4 && r == 64) || (q == 8 && r == 32)
      || (q == 16 && r == 16) || (q == 32 && r == 8) || (q == 64 && r == 4) || (q == 128 && r == 2)
  {
    assert Pow2(4) == 16 && Pow2(8) == 256;
  }

  lemma HalfRemainder(c: nat, m: nat)
    requires m > 0
    ensures c % Pow2(m) == 2 * ((c / 2) % Pow2(m - 1)) + c % 2
    ensures c / Pow2(m) == (c / 2) / Pow2(m - 1)
  {
    var p, h := Pow2(m - 1), c / 2;
    assert h == p * (h / p) + h % p;
    MulRotate2(h / p, p);
    DivModUnique(c, 2 * p, h / p, 2 * (h % p) + c % 2);
  }

  lemma {:induction false} OrCommutes(a: nat, b: nat)
    ensures Or(a, b) == Or(b, a)
    decreases a + b
  {
    if a > 0 && b > 0 { OrCommutes(a / 2, b / 2); }
  }

  /** Quotient and remainder are determined by the division equation. */
  lemma DivModUnique(n: nat, d: nat, q: int, r: nat)
    requires d > 0 && n == d * q + r && r < d
    ensures n / d == q && n % d == r
  {
    var q', r' := n / d, n % d;
    assert n == d * q' + r';
    if q > q' {
      MulGap(d, q, q');
    } else if q < q' {
      MulGap(d, q', q);
    }
  }

  lemma {:induction false} MulGap(d: nat, x: int, y: int)
    requires x > y
    ensures d * x >= d * y + d
    decreases x - y
  {
    if x > y + 1 { MulGap(d, x - 1, y); }
  }

  lemma MulAdd(p: int, x: int, y: int)
    ensures p * (x + y) == p * x + p * y
  {
  }

  lemma MulMonotone(p: nat, x: int, y: int)
    requires x <= y
    ensures p * x <= p * y
  {
    if x < y { MulGap(p, y, x); }
  }

  lemma {:induction false} ShlMonotone(x: int, y: int, k: nat)
    requires x <= y
    ensures Shl(x, k) <= Shl(y, k)
    ensures x < y ==> Shl(x, k) < Shl(y, k)
  {
    if k > 0 { ShlMonotone(x, y, k - 1); }
  }

  lemma {:induction false} ShlOne(k: nat)
    ensures Shl(1, k) == Pow2(k)
  {
    if k > 0 { ShlOne(k - 1); }
  }

  lemma {:induction false} XorBound(a: nat, b: nat, k: nat)
    requires a < Pow2(k) && b < Pow2(k)
    ensures Xor(a, b) < Pow2(k)
  {
    if k > 0 {
      XorHalves(a, b);
      XorBound(a / 2, b / 2, k - 1);
    }
  }

  function XorBytes(a: byte, b: byte): (c: byte) {
    assert Pow2(8) == 256;
    XorBound(a, b, 8);
    Xor(a, b)
  }

  /** The number of bits of `n` up to its highest. */
  function BitLength(n: nat): nat {
    if n == 0 then 0 else 1 + BitLength(n / 2)
  }

  lemma {:induction false} BitLengthBounds(n: nat)
    ensures n < Pow2(BitLength(n))
    ensures n > 0 ==> BitLength(n) > 0 && Pow2(BitLength(n) - 1) <= n
  {
    if n > 0 { BitLengthBounds(n / 2); }
  }

  lemma BitLengthUnique(n: nat, k: nat)
    requires k > 0 && Pow2(k - 1) <= n < Pow2(k)
    ensures BitLength(n) == k
  {
    BitLengthBounds(n);
    if BitLength(n) < k { Pow2Monotone(BitLength(n), k - 1); }
    if BitLength(n) > k { Pow2Monotone(k, BitLength(n) - 1); }
  }

  lemma {:induction false} BitLengthBelow(x: nat, m: nat)
    requires x < Pow2(m)
    ensures BitLength(x) <= m
  {
    if x > 0 { BitLengthBelow(x / 2, m - 1); }
  }
}
