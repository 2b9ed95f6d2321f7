/**
  Cryptography/src/RNG.cpp: a random word is scaled to a range by a 64 x 64 -> 128 bit product, built by
  doubling and added up with a carry-save loop over pairs of words.
*/
module RandomScaling {
  import opened Words

  /** The number held by a pair of 64-bit words. */
  function Wide(h: nat, l: nat): nat {
    h * TWO64 + l
  }

  /** Shift-and-add multiplication, lowest bit of `m` first. */
  function Times(a: nat, m: nat): nat
    decreases m
  {
    if m == 0 then 0 else (if m % 2 == 1 then a else 0) + Times(2 * a, m / 2)
  }

  lemma {:induction false} TimesIsProduct(a: nat, m: nat)
    ensures Times(a, m) == a * m
    decreases m
  {
    if m > 0 {
      TimesIsProduct(2 * a, m / 2);
      DoubledProduct(a, m / 2, m % 2, m);
    }
  }

  lemma DoubledProduct(a: nat, h: nat, b: nat, m: nat)
    requires m == 2 * h + b && b < 2
    ensures (if b == 1 then a else 0) + (2 * a) * h == a * m
  {
    MulAdd(a, 2 * h, b);
    MulAdd(a, h, h);
    assert (2 * a) * h == a * h + a * h;
    assert 2 * h == h + h;
    if b == 0 { assert a * b == 0; } else { assert a * b == a; }
  }

  /** Exclusive or is addition without carries, and the carries are the conjunction. */
  lemma {:induction false} CarrySave(a: nat, b: nat)
    ensures a + b == Xor(a, b) + 2 * And(a, b)
    decreases a + b
  {
    if a > 0 && b > 0 { CarrySave(a / 2, b / 2); }
  }

  lemma {:induction false} AndBound(a: nat, b: nat)
    ensures And(a, b) <= a && And(a, b) <= b
  {
    if a > 0 && b > 0 { AndBound(a / 2, b / 2); }
  }

  lemma {:induction false} AndLowClear(a: nat, b: nat, k: nat)
    requires LowClear(b, k)
    ensures LowClear(And(a, b), k)
  {
    if k > 0 {
      AndHalves(a, b);
      AndLowClear(a / 2, b / 2, k - 1);
    }
  }

  lemma {:induction false} LowClearBelow(x: nat, k: nat)
    requires LowClear(x, k) && x < Pow2(k)
    ensures x == 0
  {
    if k > 0 { LowClearBelow(x / 2, k - 1); }
  }

  /** The carry pair has `k` trailing zeros. */
  predicate Trailing(h: nat, l: nat, k: nat) {
    if k <= 64 then LowClear(l, k) else l == 0 && LowClear(h, k - 64)
  }

  /** `2 * x` cut into the bit shifted out of a word and the word that stays. */
  lemma DoubleWord(x: nat)
    requires x < TWO64
    ensures x / TWO63 <= 1 && 2 * x == (x / TWO63) * TWO64 + 2 * x % TWO64
  {
    var c, r := x / TWO63, x % TWO63;
    assert x == TWO63 * c + r;
    DivModUnique(2 * x, TWO64, c, 2 * r);
  }

  lemma CarryArithmetic(rh: nat, rl: nat, h: nat, l: nat, xh: nat, ih: nat, xl: nat, il: nat, c: nat, rest: nat)
    requires rh + h == xh + 2 * ih && rl + l == xl + 2 * il && 2 * il == c * TWO64 + rest
    requires Wide(rh, rl) + Wide(h, l) < TWO64 * TWO64
    ensures Wide(xh, xl) + Wide(2 * ih + c, rest) == Wide(rh, rl) + Wide(h, l)
    ensures 2 * ih + c < TWO64
  {
  }

  /** One turn of the carry-save loop keeps the 128-bit sum; `c` and `rest` are the halves of `il << 1`. */
  lemma CarryStep(rh: nat, rl: nat, h: nat, l: nat, ih: nat, il: nat, c: nat, rest: nat)
    requires rh < TWO64 && rl < TWO64 && h < TWO64 && l < TWO64
    requires Wide(rh, rl) + Wide(h, l) < TWO64 * TWO64
    requires ih == And(rh, h) && il == And(rl, l)
    requires c <= 1 && 2 * il == c * TWO64 + rest
    ensures Xor(rh, h) < TWO64 && Xor(rl, l) < TWO64
    ensures 2 * ih < TWO64 && Or(2 * ih, c) < TWO64
    ensures Wide(Xor(rh, h), Xor(rl, l)) + Wide(Or(2 * ih, c), rest) == Wide(rh, rl) + Wide(h, l)
  {
    CarrySave(rh, h);
    CarrySave(rl, l);
    WordXor(rh, h);
    WordXor(rl, l);
    CarryArithmetic(rh, rl, h, l, Xor(rh, h), ih, Xor(rl, l), il, c, rest);
    OrLowBit(ih, c);
  }

  lemma OrLowBit(x: nat, c: nat)
    requires c <= 1
    ensures Or(2 * x, c) == 2 * x + c
  {
    OrDisjoint(2 * x, c, 1);
  }

  lemma SmallWord(x: nat)
    requires x < TWO64
    ensures x % TWO64 == x
  {
  }

  lemma WordXor(a: nat, b: nat)
    requires a < TWO64 && b < TWO64
    ensures Xor(a, b) < TWO64
  {
    Pow2Words();
    XorBound(a, b, 64);
  }

  /** ... and gives the carry one more trailing zero. */
  lemma CarryTrailing(rh: nat, rl: nat, h: nat, l: nat, k: nat, ih: nat, il: nat, c: nat, rest: nat)
    requires l < TWO64 && k < 128 && Trailing(h, l, k) && ih == And(rh, h) && il == And(rl, l)
    requires c <= 1 && rest < TWO64 && 2 * il == c * TWO64 + rest
    ensures Trailing(Or(2 * ih, c), rest, k + 1)
  {
    if k < 64 {
      AndLowClear(rl, l, k);
      DoubleLowClear(il, k, c, rest);
      TrailingLow(Or(2 * ih, c), rest, k + 1);
    } else {
      LowHalfClear(h, l, k);
      assert il == 0 && c == 0 && rest == 0;
      AndLowClear(rh, h, k - 64);
      OrLowBit(ih, c);
      TrailingHigh(ih, k - 64);
    }
  }

  lemma TrailingLow(h: nat, l: nat, k: nat)
    requires k <= 64 && LowClear(l, k)
    ensures Trailing(h, l, k)
  {
  }

  lemma TrailingHigh(h: nat, k: nat)
    requires LowClear(h, k)
    ensures Trailing(2 * h, 0, k + 65)
  {
    assert LowClear(2 * h, k + 1);
  }

  lemma LowHalfClear(h: nat, l: nat, k: nat)
    requires l < TWO64 && k >= 64 && Trailing(h, l, k)
    ensures l == 0 && LowClear(h, k - 64)
  {
    if k == 64 {
      Pow2Words();
      LowClearBelow(l, 64);
    }
  }

  /** Doubling a word adds a trailing zero, and truncation to 64 bits keeps it. */
  lemma DoubleLowClear(x: nat, k: nat, c: nat, rest: nat)
    requires LowClear(x, k) && k < 64 && c <= 1 && 2 * x == c * TWO64 + rest
    ensures LowClear(rest, k + 1)
  {
    if c == 1 {
      Pow2Add(k, 63 - k);
      Pow2Words();
      LowClearMultiple(x, k);
      LowClearMultiple(rest / 2, k);
      MultipleDifference(x, rest / 2, Pow2(k), Pow2(63 - k));
    }
  }

  lemma MultipleDifference(x: nat, y: nat, p: nat, t: nat)
    requires p > 0 && x % p == 0 && x == p * t + y
    ensures y % p == 0
  {
    var q := x / p;
    assert x == p * q;
    MulAdd(p, q - t, t);
    DivModUnique(y, p, q - t, 0);
  }

  /** The inner loop: the pair `(h, l)` is added to the pair `(rh, rl)`. */
  method AddCarrySave(rh0: nat, rl0: nat, h0: nat, l0: nat) returns (rh: nat, rl: nat)
    requires rh0 < TWO64 && rl0 < TWO64 && h0 < TWO64 && l0 < TWO64
    requires Wide(rh0, rl0) + Wide(h0, l0) < TWO64 * TWO64
    ensures rh < TWO64 && rl < TWO64
    ensures Wide(rh, rl) == Wide(rh0, rl0) + Wide(h0, l0)
  {
    rh, rl := rh0, rl0;
    var h: nat, l: nat := h0, l0;
    ghost var k: nat := 0;
    while h > 0 || l > 0
      invariant rh < TWO64 && rl < TWO64 && h < TWO64 && l < TWO64 && k <= 128
      invariant Wide(rh, rl) + Wide(h, l) == Wide(rh0, rl0) + Wide(h0, l0)
      invariant Trailing(h, l, k)
      decreases 128 - k
    {
      CarryAlive(h, l, k);
      var ih := And(rh, h);
      var il := And(rl, l);
      AndBound(rl, l);
      DoubleWord(il);
      var shifted, carry := 2 * il % TWO64, il / TWO63;
      CarryStep(rh, rl, h, l, ih, il, carry, shifted);
      CarryTrailing(rh, rl, h, l, k, ih, il, carry, shifted);
      SmallWord(2 * ih);
      rh := Xor(rh, h);
      rl := Xor(rl, l);
      l := shifted;
      h := Or(2 * ih % TWO64, carry);
      k := k + 1;
    }
  }

  lemma CarryAlive(h: nat, l: nat, k: nat)
    requires h < TWO64 && l < TWO64 && k <= 128 && Trailing(h, l, k) && (h > 0 || l > 0)
    ensures k < 128
  {
    Pow2Words();
    if k == 128 { LowClearBelow(h, 64); }
  }

  lemma TimesAtLeast(a: nat, m: nat)
    requires m > 0
    ensures Times(a, m) >= a
    decreases m
  {
    if m / 2 > 0 { TimesAtLeast(2 * a, m / 2); }
  }

  /** Doubling the pair is exact while the result is still needed. */
  lemma DoublePair(ah: nat, al: nat)
    requires ah < TWO64 && al < TWO64
    ensures Or(2 * ah % TWO64, al / TWO63) < TWO64
    ensures 2 * Wide(ah, al) < TWO64 * TWO64 ==>
      Wide(Or(2 * ah % TWO64, al / TWO63), 2 * al % TWO64) == 2 * Wide(ah, al)
  {
    DoubleWord(al);
    var t := 2 * ah % TWO64;
    assert t % 2 == 0 && t + 1 < TWO64;
    OrDisjoint(t, al / TWO63, 1);
    if 2 * Wide(ah, al) < TWO64 * TWO64 { assert t == 2 * ah; }
  }

  lemma ProductBelow(a: nat, b: nat)
    requires a < TWO64 && b < TWO64
    ensures a * b < TWO64 * TWO64
    ensures b > 0 ==> a * b < TWO64 * b
  {
    MulMonotone(a, b, TWO64);
    if b > 0 { MulGap(b, TWO64, a); }
  }

  /** `random(max)` after `random()` has drawn `word`. */
  method Scale(word: nat, max0: nat) returns (rh: nat)
    requires word < TWO64 && max0 < TWO64
    ensures rh == word * max0 / TWO64
    ensures max0 > 0 ==> rh < max0
  {
    rh := 0;
    var rl: nat, ah: nat, al: nat, max: nat := 0, 0, word, max0;
    TimesIsProduct(word, max0);
    ProductBelow(word, max0);
    ghost var total := Times(word, max0);
    while max > 0
      invariant rh < TWO64 && rl < TWO64 && ah < TWO64 && al < TWO64
      invariant max == 0 ==> Wide(rh, rl) == total
      invariant max > 0 ==> Wide(rh, rl) + Times(Wide(ah, al), max) == total
      decreases max
    {
      ghost var a := Wide(ah, al);
      if max % 2 == 1 {
        rh, rl := AddCarrySave(rh, rl, ah, al);
      }
      max := max / 2;
      if max > 0 { TimesAtLeast(2 * a, max); }
      DoublePair(ah, al);
      ah := 2 * ah % TWO64;
      ah := Or(ah, al / TWO63);
      al := 2 * al % TWO64;
    }
    ScaleResult(rh, rl, word * max0, max0);
  }

  lemma ScaleResult(rh: nat, rl: nat, product: nat, max: nat)
    requires rl < TWO64 && Wide(rh, rl) == product && (max > 0 ==> product < TWO64 * max)
    ensures rh == product / TWO64 && (max > 0 ==> rh < max)
  {
    DivModUnique(product, TWO64, rh, rl);
  }
}
