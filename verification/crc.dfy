/**
  Cryptography/src/CRC.cpp: the bit-serial cyclic redundancy checks.

  The register is read as a sequence of bits, highest first.  One step of the register is a step of GF(2) long
  division (`RunIsLongDivision`), it is affine (`RunAffine`), and it detects every burst no longer than the
  register exactly when the generator has a constant term (`DetectsBurstsExactly`).
*/
module CyclicRedundancy {
  import opened Words

  // --- registers as bit sequences -------------------------------------------------------------------------

  function Zeros(n: nat): (s: seq<bool>)
    ensures |s| == n && forall i :: 0 <= i < n ==> !s[i]
  {
    seq(n, _ => false)
  }

  function XorBits(s: seq<bool>, t: seq<bool>): (r: seq<bool>)
    requires |s| == |t|
    ensures |r| == |s| && forall i :: 0 <= i < |s| ==> r[i] == (s[i] != t[i])
  {
    seq(|s|, i requires 0 <= i < |s| => s[i] != t[i])
  }

  /** One register step: shift in a zero, and subtract the generator if the bit shifted out differs from `b`. */
  function Step(reg: seq<bool>, g: seq<bool>, b: bool): (r: seq<bool>)
    requires |reg| == |g| > 0
    ensures |r| == |g|
  {
    var shifted := reg[1..] + [false];
    if reg[0] != b then XorBits(shifted, g) else shifted
  }

  function Run(reg: seq<bool>, g: seq<bool>, bits: seq<bool>): (r: seq<bool>)
    requires |reg| == |g| > 0
    ensures |r| == |g|
    decreases bits
  {
    if bits == [] then reg else Run(Step(reg, g, bits[0]), g, bits[1..])
  }

  /** Textbook division of the polynomial `bits` by x^w + g: what is left once only w coefficients remain. */
  function LongDivision(bits: seq<bool>, g: seq<bool>): (r: seq<bool>)
    requires |bits| >= |g|
    ensures |r| == |g|
    decreases |bits|
  {
    if |bits| == |g| then bits
    else if bits[0] then LongDivision(XorBits(bits[1..|g| + 1], g) + bits[|g| + 1..], g)
    else LongDivision(bits[1..], g)
  }

  // --- the register is the remainder ----------------------------------------------------------------------

  /** The dividend left to divide: the bits still to come, shifted up by w, plus the register at the front. */
  function Dividend(reg: seq<bool>, bits: seq<bool>): (r: seq<bool>)
    ensures |r| == |reg| + |bits|
  {
    XorBits(bits + Zeros(|reg|), reg + Zeros(|bits|))
  }

  lemma DividendStep(reg: seq<bool>, g: seq<bool>, bits: seq<bool>)
    requires |reg| == |g| > 0 && bits != []
    ensures var all, rest := Dividend(reg, bits), Dividend(Step(reg, g, bits[0]), bits[1..]);
      rest == if all[0] then XorBits(all[1..|g| + 1], g) + all[|g| + 1..] else all[1..]
  {
    var w, all := |g|, Dividend(reg, bits);
    var rest := Dividend(Step(reg, g, bits[0]), bits[1..]);
    var expected := if all[0] then XorBits(all[1..w + 1], g) + all[w + 1..] else all[1..];
    var long, regs := bits + Zeros(w), reg + Zeros(|bits|);
    var next := Step(reg, g, bits[0]) + Zeros(|bits| - 1);
    assert all[0] == (reg[0] != bits[0]);
    forall i | 0 <= i < |rest| ensures rest[i] == expected[i] {
      assert (bits[1..] + Zeros(w))[i] == long[i + 1];
      assert rest[i] == (long[i + 1] != next[i]);
      assert next[i] == (if i < w then (regs[i + 1] != (all[0] && g[i])) else false);
      assert all[i + 1] == (long[i + 1] != regs[i + 1]);
    }
  }

  /** The register after a message is the remainder of message * x^w, the start value being added on top. */
  lemma {:induction false} RunIsLongDivision(reg: seq<bool>, g: seq<bool>, bits: seq<bool>)
    requires |reg| == |g| > 0
    ensures Run(reg, g, bits) == LongDivision(Dividend(reg, bits), g)
    decreases bits
  {
    if bits == [] {
      assert Dividend(reg, bits) == reg;
    } else {
      DividendStep(reg, g, bits);
      RunIsLongDivision(Step(reg, g, bits[0]), g, bits[1..]);
    }
  }

  /** Registers and messages add: the step is affine over GF(2). */
  lemma {:induction false} RunAffine(r: seq<bool>, s: seq<bool>, g: seq<bool>, x: seq<bool>, y: seq<bool>)
    requires |r| == |s| == |g| > 0 && |x| == |y|
    ensures Run(XorBits(r, s), g, XorBits(x, y)) == XorBits(Run(r, g, x), Run(s, g, y))
    decreases x
  {
    if x != [] {
      var r', s' := Step(r, g, x[0]), Step(s, g, y[0]);
      StepAffine(r, s, g, x[0], y[0]);
      assert XorBits(x, y)[1..] == XorBits(x[1..], y[1..]);
      RunAffine(r', s', g, x[1..], y[1..]);
    }
  }

  lemma StepAffine(r: seq<bool>, s: seq<bool>, g: seq<bool>, x: bool, y: bool)
    requires |r| == |s| == |g| > 0
    ensures XorBits(Step(r, g, x), Step(s, g, y)) == Step(XorBits(r, s), g, x != y)
  {
    var u, v := XorBits(Step(r, g, x), Step(s, g, y)), Step(XorBits(r, s), g, x != y);
    assert |u| == |v|;
    forall i | 0 <= i < |u| ensures u[i] == v[i] {
    }
  }

  lemma {:induction false} RunConcat(reg: seq<bool>, g: seq<bool>, x: seq<bool>, y: seq<bool>)
    requires |reg| == |g| > 0
    ensures Run(reg, g, x + y) == Run(Run(reg, g, x), g, y)
    decreases x
  {
    if x == [] {
      assert x + y == y;
    } else {
      assert (x + y)[1..] == x[1..] + y;
      RunConcat(Step(reg, g, x[0]), g, x[1..], y);
    }
  }

  // --- burst errors ---------------------------------------------------------------------------------------

  /** With a constant term, at most w bits bring the register to zero only by being its own leading bits. */
  lemma {:induction false} RunToZero(reg: seq<bool>, g: seq<bool>, bits: seq<bool>)
    requires |reg| == |g| > 0 && g[|g| - 1] && |bits| <= |g|
    ensures Run(reg, g, bits) == Zeros(|g|) <==> reg == bits + Zeros(|g| - |bits|)
    decreases bits
  {
    var w := |g|;
    if bits == [] {
      assert bits + Zeros(w) == Zeros(w);
    } else {
      var next, rest := Step(reg, g, bits[0]), bits[1..];
      RunToZero(next, g, rest);
      var target := rest + Zeros(w - |rest|);
      assert !target[w - 1];
      assert next[w - 1] == (reg[0] != bits[0]);
      if reg == bits + Zeros(w - |bits|) {
        assert next == target;
      }
      if next == target {
        forall i | 0 <= i < w ensures reg[i] == (bits + Zeros(w - |bits|))[i] {
          if i > 0 { assert reg[i] == next[i - 1] == target[i - 1]; }
        }
        assert reg == bits + Zeros(w - |bits|);
      }
    }
  }

  lemma {:induction false} ZerosKeepNonZero(reg: seq<bool>, g: seq<bool>, n: nat)
    requires |reg| == |g| > 0 && g[|g| - 1] && reg != Zeros(|g|)
    ensures Run(reg, g, Zeros(n)) != Zeros(|g|)
    decreases n
  {
    if n > 0 {
      RunToZero(reg, g, [false]);
      assert [false] + Zeros(|g| - 1) == Zeros(|g|);
      assert Run(reg, g, [false]) == Step(reg, g, false) by { assert [false][1..] == []; }
      assert Zeros(n)[1..] == Zeros(n - 1);
      ZerosKeepNonZero(Step(reg, g, false), g, n - 1);
    }
  }

  lemma {:induction false} ZeroStaysZero(g: seq<bool>, n: nat)
    requires |g| > 0
    ensures Run(Zeros(|g|), g, Zeros(n)) == Zeros(|g|)
  {
    if n > 0 {
      assert Step(Zeros(|g|), g, false) == Zeros(|g|);
      assert Zeros(n)[1..] == Zeros(n - 1);
      ZeroStaysZero(g, n - 1);
    }
  }

  /** A difference confined to a window of at most w bits never fades from the register. */
  lemma DifferenceSurvives(g: seq<bool>, before: nat, d: seq<bool>, after: nat)
    requires |g| > 0 && g[|g| - 1] && |d| <= |g| && d != Zeros(|d|)
    ensures Run(Zeros(|g|), g, Zeros(before) + d + Zeros(after)) != Zeros(|g|)
  {
    var zero := Zeros(|g|);
    RunConcat(zero, g, Zeros(before) + d, Zeros(after));
    RunConcat(zero, g, Zeros(before), d);
    ZeroStaysZero(g, before);
    RunToZero(zero, g, d);
    PaddedNonZero(d, |g| - |d|);
    ZerosKeepNonZero(Run(zero, g, d), g, after);
  }

  lemma PaddedNonZero(d: seq<bool>, n: nat)
    requires d != Zeros(|d|)
    ensures d + Zeros(n) != Zeros(|d| + n)
  {
    var i :| 0 <= i < |d| && d[i];
    assert (d + Zeros(n))[i];
  }

  lemma XorWindow(pre: seq<bool>, x: seq<bool>, y: seq<bool>, post: seq<bool>, m: seq<bool>, n: seq<bool>)
    requires |x| == |y| && m == pre + x + post && n == pre + y + post
    ensures XorBits(m, n) == Zeros(|pre|) + XorBits(x, y) + Zeros(|post|)
  {
  }

  lemma WindowSurvives(g: seq<bool>, pre: seq<bool>, x: seq<bool>, y: seq<bool>, post: seq<bool>,
                       m: seq<bool>, n: seq<bool>)
    requires |g| > 0 && g[|g| - 1] && |x| == |y| <= |g| && x != y
    requires m == pre + x + post && n == pre + y + post
    ensures Run(Zeros(|g|), g, XorBits(m, n)) != Zeros(|g|)
  {
    XorDifferent(x, y);
    XorWindow(pre, x, y, post, m, n);
    DifferenceSurvives(g, |pre|, XorBits(x, y), |post|);
  }

  /** Two messages that differ only inside a window of at most w bits leave different registers. */
  lemma BurstDetected(reg: seq<bool>, g: seq<bool>, pre: seq<bool>, x: seq<bool>, y: seq<bool>, post: seq<bool>)
    requires |reg| == |g| > 0 && g[|g| - 1]
    requires |x| == |y| <= |g| && x != y
    ensures Run(reg, g, pre + x + post) != Run(reg, g, pre + y + post)
  {
    WindowSurvives(g, pre, x, y, post, pre + x + post, pre + y + post);
    DifferenceSeparates(reg, g, pre + x + post, pre + y + post);
  }

  lemma DifferenceSeparates(reg: seq<bool>, g: seq<bool>, m: seq<bool>, n: seq<bool>)
    requires |reg| == |g| > 0 && |m| == |n|
    requires Run(Zeros(|g|), g, XorBits(m, n)) != Zeros(|g|)
    ensures Run(reg, g, m) != Run(reg, g, n)
  {
    XorSelf(reg, reg);
    RunAffine(reg, reg, g, m, n);
    XorSelf(Run(reg, g, m), Run(reg, g, n));
  }

  lemma XorDifferent(x: seq<bool>, y: seq<bool>)
    requires |x| == |y| && x != y
    ensures XorBits(x, y) != Zeros(|x|)
  {
    var i :| 0 <= i < |x| && x[i] != y[i];
    assert XorBits(x, y)[i];
  }

  lemma XorSelf(s: seq<bool>, t: seq<bool>)
    requires |s| == |t|
    ensures s == t ==> XorBits(s, t) == Zeros(|s|)
  {
  }

  ghost predicate DetectsBursts(g: seq<bool>)
    requires |g| > 0
  {
    forall reg: seq<bool>, pre: seq<bool>, x: seq<bool>, y: seq<bool>, post: seq<bool> ::
      |reg| == |g| && |x| == |y| <= |g| && x != y ==> Run(reg, g, pre + x + post) != Run(reg, g, pre + y + post)
  }

  /** While the message repeats the register, the register only shifts. */
  lemma {:induction false} RunShifts(g: seq<bool>, k: nat, bits: seq<bool>)
    requires |g| > k && bits == g[k..|g| - 1]
    ensures Run(g[k..] + Zeros(k), g, bits) == g[|g| - 1..] + Zeros(|g| - 1)
    decreases |g| - k
  {
    var reg := g[k..] + Zeros(k);
    if k + 1 < |g| {
      assert Step(reg, g, bits[0]) == g[k + 1..] + Zeros(k + 1);
      RunShifts(g, k + 1, bits[1..]);
    } else {
      assert bits == [];
    }
  }

  /** Without a constant term x + ... + g/x is a burst of w bits that leaves no trace. */
  lemma EvenGeneratorMisses(g: seq<bool>)
    requires |g| > 0 && !g[|g| - 1]
    ensures var burst := [true] + g[..|g| - 1];
      |burst| == |g| && burst != Zeros(|g|) && Run(Zeros(|g|), g, burst) == Run(Zeros(|g|), g, Zeros(|g|))
  {
    var w, zero := |g|, Zeros(|g|);
    var burst := [true] + g[..w - 1];
    assert burst[0] && !zero[0];
    assert Step(zero, g, true) == g == g[0..] + Zeros(0);
    assert burst[1..] == g[0..w - 1];
    RunShifts(g, 0, g[0..w - 1]);
    assert g[w - 1..] + Zeros(w - 1) == zero;
    ZeroStaysZero(g, w);
  }

  /** The exact condition: all bursts of up to w bits are detected iff the generator is odd. */
  lemma DetectsBurstsExactly(g: seq<bool>)
    requires |g| > 0
    ensures DetectsBursts(g) <==> g[|g| - 1]
  {
    if g[|g| - 1] {
      forall reg: seq<bool>, pre: seq<bool>, x: seq<bool>, y: seq<bool>, post: seq<bool>
        | |reg| == |g| && |x| == |y| <= |g| && x != y
        ensures Run(reg, g, pre + x + post) != Run(reg, g, pre + y + post)
      {
        BurstDetected(reg, g, pre, x, y, post);
      }
    } else {
      EvenGeneratorMisses(g);
      UndetectedBurst(g, Zeros(|g|), [true] + g[..|g| - 1], Zeros(|g|));
    }
  }

  lemma UndetectedBurst(g: seq<bool>, reg: seq<bool>, x: seq<bool>, y: seq<bool>)
    requires |reg| == |g| > 0 && |x| == |y| == |g| && x != y && Run(reg, g, x) == Run(reg, g, y)
    ensures !DetectsBursts(g)
  {
    var none: seq<bool> := [];
    assert none + x + none == x && none + y + none == y;
    assert Run(reg, g, none + x + none) == Run(reg, g, none + y + none);
  }

  // --- words as bit sequences -----------------------------------------------------------------------------

  /** The low `w` bits of `c`, highest first. */
  function BitsOf(c: nat, w: nat): (s: seq<bool>)
    ensures |s| == w
  {
    if w == 0 then [] else BitsOf(c / 2, w - 1) + [c % 2 == 1]
  }

  lemma {:induction false} BitsTail(c: nat, w: nat)
    requires w > 0
    ensures BitsOf(c, w)[1..] == BitsOf(c, w - 1)
  {
    if w > 1 {
      BitsTail(c / 2, w - 1);
      assert BitsOf(c, w)[1..] == BitsOf(c / 2, w - 1)[1..] + [c % 2 == 1];
    }
  }

  /** The bit shifted out of a w-bit register is what `crc >> (w - 1)` leaves. */
  lemma {:induction false} BitsHead(c: nat, w: nat)
    requires w > 0 && c < Pow2(w)
    ensures Shr(c, w - 1) == if BitsOf(c, w)[0] then 1 else 0
  {
    if w > 1 { BitsHead(c / 2, w - 1); }
  }

  lemma {:induction false} BitsXor(a: nat, b: nat, w: nat)
    ensures BitsOf(Xor(a, b), w) == XorBits(BitsOf(a, w), BitsOf(b, w))
  {
    if w > 0 {
      XorHalves(a, b);
      BitsXor(a / 2, b / 2, w - 1);
    }
  }

  lemma {:induction false} BitsInjective(a: nat, b: nat, w: nat)
    requires a < Pow2(w) && b < Pow2(w) && BitsOf(a, w) == BitsOf(b, w)
    ensures a == b
  {
    if w > 0 {
      assert BitsOf(a, w)[w - 1] == (a % 2 == 1) && BitsOf(b, w)[w - 1] == (b % 2 == 1);
      assert BitsOf(a / 2, w - 1) == BitsOf(a, w)[..w - 1] == BitsOf(b, w)[..w - 1] == BitsOf(b / 2, w - 1);
      BitsInjective(a / 2, b / 2, w - 1);
    }
  }

  /** Truncating or masking at or above bit `w` keeps the low `w` bits. */
  lemma {:induction false} BitsTruncate(c: nat, w: nat, m: nat)
    requires w <= m
    ensures BitsOf(c % Pow2(m), w) == BitsOf(c, w)
  {
    if w > 0 {
      HalfRemainder(c, m);
      BitsTruncate(c / 2, w - 1, m - 1);
    }
  }

  lemma BitsMask(c: nat, w: nat, m: nat)
    requires w <= m
    ensures BitsOf(And(c, Pow2(m) - 1), w) == BitsOf(c, w)
  {
    AndMask(c, m);
    BitsTruncate(c, w, m);
  }

  function Reversed(s: seq<bool>): (r: seq<bool>)
    ensures |r| == |s| && forall i :: 0 <= i < |s| ==> r[i] == s[|s| - 1 - i]
  {
    seq(|s|, i requires 0 <= i < |s| => s[|s| - 1 - i])
  }

  lemma ReversedInjective(s: seq<bool>, t: seq<bool>)
    requires |s| == |t| && Reversed(s) == Reversed(t)
    ensures s == t
  {
    forall i | 0 <= i < |s| ensures s[i] == t[i] {
      assert s[i] == Reversed(s)[|s| - 1 - i] && t[i] == Reversed(t)[|s| - 1 - i];
    }
  }

  lemma ReversedCons(b: bool, s: seq<bool>)
    ensures Reversed([b] + s) == Reversed(s) + [b]
  {
  }

  /** One turn of a reflection loop: the low bit of what is left of `x` moves to the low end of `y`. */
  lemma ReflectStep(x: nat, y: nat, i: nat, b: nat)
    requires y < Pow2(i) && BitsOf(y, i) == Reversed(BitsOf(x, i)) && b == Shr(x, i) % 2
    ensures Or(2 * y, b) < Pow2(i + 1) && BitsOf(Or(2 * y, b), i + 1) == Reversed(BitsOf(x, i + 1))
  {
    ShrBit(x, i);
    BitsTail(x, i + 1);
    ReversedCons(b == 1, BitsOf(x, i));
    assert BitsOf(x, i + 1) == [b == 1] + BitsOf(x, i);
    AppendBit(y, b, i);
  }

  lemma AppendBit(y: nat, b: nat, i: nat)
    requires y < Pow2(i) && b <= 1
    ensures Or(2 * y, b) == 2 * y + b < Pow2(i + 1)
    ensures BitsOf(Or(2 * y, b), i + 1) == BitsOf(y, i) + [b == 1]
  {
    OrDisjoint(2 * y, b, 1);
    var next := 2 * y + b;
    assert next / 2 == y && next % 2 == b;
  }

  lemma {:induction false} ShrBit(x: nat, i: nat)
    ensures Shr(x, i) >= 0 && BitsOf(x, i + 1)[0] == (Shr(x, i) % 2 == 1)
    ensures Shr(x, i + 1) == Shr(x, i) / 2
  {
    if i > 0 { ShrBit(x / 2, i - 1); }
  }

  // --- the algorithms -------------------------------------------------------------------------------------

  datatype Parameters = Parameters(init: nat, refi: bool, poly: nat, refo: bool, xoro: nat, mask: nat, widt: nat)

  const ARGUMENT: seq<Parameters> := [
    Parameters(0x0, true, 0x3, true, 0x0, 0xF, 4),
    Parameters(0x9, false, 0x9, false, 0x0, 0x1F, 5),
    Parameters(0x0, true, 0x15, true, 0x0, 0x1F, 5),
    Parameters(0x1F, true, 0x5, true, 0x1F, 0x1F, 5),
    Parameters(0x0, true, 0x3, true, 0x0, 0x3F, 6),
    Parameters(0x0, false, 0x9, false, 0x0, 0x7F, 7),
    Parameters(0x0, false, 0x7, false, 0x0, 0xFF, 8),
    Parameters(0x0, false, 0x7, false, 0x55, 0xFF, 8),
    Parameters(0xFF, true, 0x7, true, 0x0, 0xFF, 8),
    Parameters(0x0, true, 0x31, true, 0x0, 0xFF, 8),
    Parameters(0x0, true, 0x8005, true, 0x0, 0xFFFF, 16),
    Parameters(0x0, true, 0x8005, true, 0xFFFF, 0xFFFF, 16),
    Parameters(0xFFFF, true, 0x8005, true, 0xFFFF, 0xFFFF, 16),
    Parameters(0xFFFF, true, 0x8005, true, 0x0, 0xFFFF, 16),
    Parameters(0x0, true, 0x1021, true, 0x0, 0xFFFF, 16),
    Parameters(0xFFFF, false, 0x1021, false, 0x0, 0xFFFF, 16),
    Parameters(0xFFFF, true, 0x1021, true, 0xFFFF, 0xFFFF, 16),
    Parameters(0x0, false, 0x1021, false, 0x0, 0xFFFF, 16),
    Parameters(0x0, true, 0x8408, true, 0x0, 0xFFFF, 16),
    Parameters(0x0, true, 0x3D65, true, 0xFFFF, 0xFFFF, 16),
    Parameters(0xFFFFFFFF, true, 0x4C11DB7, true, 0xFFFFFFFF, 0xFFFFFFFF, 32),
    Parameters(0xFFFFFFFF, true, 0x1EDC6F41, true, 0xFFFFFFFF, 0xFFFFFFFF, 32),
    Parameters(0xFFFFFFFF, true, 0x741B8CD7, true, 0xFFFFFFFF, 0xFFFFFFFF, 32),
    Parameters(0xFFFFFFFF, false, 0x4C11DB7, false, 0x0, 0xFFFFFFFF, 32),
    Parameters(0xFFFFFFFFFFFFFFFF, false, 0x42F0E1EBA9EA3693, false, 0xFFFFFFFFFFFFFFFF, 0xFFFFFFFFFFFFFFFF, 64),
    Parameters(0xFFFFFFFFFFFFFFFF, true, 0x1B, true, 0xFFFFFFFFFFFFFFFF, 0xFFFFFFFFFFFFFFFF, 64),
    Parameters(0xFFFFFFFFFFFFFFFF, true, 0x42F0E1EBA9EA3693, true, 0xFFFFFFFFFFFFFFFF, 0xFFFFFFFFFFFFFFFF, 64)
  ]

  predicate WellFormed(p: Parameters) {
    && 1 <= p.widt <= 64 && p.mask == Pow2(p.widt) - 1
    && p.init <= p.mask && p.poly <= p.mask && p.xoro <= p.mask
  }

  lemma TableWellFormed(k: nat)
    requires k < |ARGUMENT|
    ensures WellFormed(ARGUMENT[k])
    ensures ARGUMENT[k].poly % 2 == 1 <==> k != 18
  {
    var p := ARGUMENT[k];
    assert (p.widt, p.mask) in {(4, 0xF), (5, 0x1F), (6, 0x3F), (7, 0x7F), (8, 0xFF), (16, 0xFFFF),
      (32, 0xFFFFFFFF), (64, 0xFFFFFFFFFFFFFFFF)};
    MaskOfWidth(p.widt, p.mask);
  }

  lemma MaskOfWidth(w: nat, mask: nat)
    requires (w, mask) in {(4, 0xF), (5, 0x1F), (6, 0x3F), (7, 0x7F), (8, 0xFF), (16, 0xFFFF),
      (32, 0xFFFFFFFF), (64, 0xFFFFFFFFFFFFFFFF)}
    ensures 1 <= w <= 64 && mask == Pow2(w) - 1
  {
    Pow2Words();
    assert Pow2(4) == 16 && Pow2(5) == 32 && Pow2(6) == 64 && Pow2(7) == 128;
  }

  function Generator(p: Parameters): (g: seq<bool>)
    ensures |g| == p.widt
  {
    BitsOf(p.poly, p.widt)
  }

  /** The bits of a byte in the order the register takes them. */
  function ByteBits(x: byte, refi: bool): (s: seq<bool>)
    ensures |s| == 8
  {
    if refi then Reversed(BitsOf(x, 8)) else BitsOf(x, 8)
  }

  function MessageBits(m: seq<byte>, refi: bool): (s: seq<bool>)
    ensures |s| == 8 * |m|
  {
    if m == [] then [] else MessageBits(m[..|m| - 1], refi) + ByteBits(m[|m| - 1], refi)
  }

  function FinalBits(p: Parameters, reg: seq<bool>): (s: seq<bool>)
    requires |reg| == p.widt
    ensures |s| == p.widt
  {
    XorBits(if p.refo then Reversed(reg) else reg, BitsOf(p.xoro, p.widt))
  }

  /** The bits of `value()` after one message. */
  function ValueBits(p: Parameters, m: seq<byte>): (s: seq<bool>)
    requires p.widt > 0
    ensures |s| == p.widt
  {
    FinalBits(p, Run(BitsOf(p.init, p.widt), Generator(p), MessageBits(m, p.refi)))
  }

  /** Bit by bit: from the other end if the row reflects, and complemented where XORO has a one. */
  lemma FinalBitsAt(p: Parameters, reg: seq<bool>, i: nat)
    requires |reg| == p.widt && i < p.widt
    ensures FinalBits(p, reg)[i] == ((if p.refo then reg[p.widt - 1 - i] else reg[i]) != BitsOf(p.xoro, p.widt)[i])
  {
  }

  lemma {:induction false} AllOnes(w: nat, i: nat)
    requires i < w
    ensures BitsOf(Pow2(w) - 1, w)[i]
  {
    var ones := Pow2(w) - 1;
    assert ones % 2 == 1 && ones / 2 == Pow2(w - 1) - 1;
    if i < w - 1 { AllOnes(w - 1, i); }
  }

  /** Rows whose register starts as all ones and whose result is complemented give the empty message zeros. */
  lemma EmptyMessage(k: nat)
    requires k < |ARGUMENT| && ARGUMENT[k].init == ARGUMENT[k].mask && ARGUMENT[k].xoro == ARGUMENT[k].mask
    ensures ARGUMENT[k].widt > 0 && ValueBits(ARGUMENT[k], []) == Zeros(ARGUMENT[k].widt)
  {
    TableWellFormed(k);
    OnesCancel(ARGUMENT[k], BitsOf(ARGUMENT[k].init, ARGUMENT[k].widt));
  }

  lemma OnesCancel(p: Parameters, ones: seq<bool>)
    requires WellFormed(p) && p.xoro == p.mask && ones == BitsOf(p.mask, p.widt)
    ensures FinalBits(p, ones) == Zeros(p.widt)
  {
    forall i | 0 <= i < p.widt ensures !FinalBits(p, ones)[i] { OneCancels(p, p.mask, ones, p.widt, i); }
  }

  lemma OneCancels(p: Parameters, mask: nat, ones: seq<bool>, w: nat, i: nat)
    requires i < w == p.widt && p.xoro == mask == Pow2(w) - 1 && ones == BitsOf(mask, w)
    ensures !FinalBits(p, ones)[i]
  {
    FinalBitsAt(p, ones, i);
    AllOnes(w, i);
    AllOnes(w, w - 1 - i);
  }

  lemma FinalBitsInjective(p: Parameters, r: seq<bool>, s: seq<bool>)
    requires |r| == |s| == p.widt && FinalBits(p, r) == FinalBits(p, s)
    ensures r == s
  {
    var x := BitsOf(p.xoro, p.widt);
    var r', s' := if p.refo then Reversed(r) else r, if p.refo then Reversed(s) else s;
    forall i | 0 <= i < p.widt ensures r'[i] == s'[i] {
      assert (r'[i] != x[i]) == FinalBits(p, r)[i] == FinalBits(p, s)[i] == (s'[i] != x[i]);
    }
    assert r' == s';
    if p.refo { ReversedInjective(r, s); }
  }

  lemma ByteBitsInjective(x: byte, y: byte, refi: bool)
    requires ByteBits(x, refi) == ByteBits(y, refi)
    ensures x == y
  {
    if refi { ReversedInjective(BitsOf(x, 8), BitsOf(y, 8)); }
    Pow2Words();
    BitsInjective(x, y, 8);
  }

  lemma ConcatEqual(s: seq<bool>, x: seq<bool>, t: seq<bool>, y: seq<bool>)
    requires |s| == |t| && s + x == t + y
    ensures s == t && x == y
  {
    assert (s + x)[..|s|] == s && (t + y)[..|s|] == t;
    assert (s + x)[|s|..] == x && (t + y)[|s|..] == y;
  }

  lemma {:induction false} MessageBitsInjective(m: seq<byte>, n: seq<byte>, refi: bool)
    requires |m| == |n| && MessageBits(m, refi) == MessageBits(n, refi)
    ensures m == n
  {
    if m != [] {
      var m', n', x, y := m[..|m| - 1], n[..|m| - 1], m[|m| - 1], n[|m| - 1];
      ConcatEqual(MessageBits(m', refi), ByteBits(x, refi), MessageBits(n', refi), ByteBits(y, refi));
      ByteBitsInjective(x, y, refi);
      MessageBitsInjective(m', n', refi);
    }
  }

  /** Every row but 18 detects every burst of up to WIDT bits; row 18 does not. */
  lemma RowDetectsBursts(k: nat)
    requires k < |ARGUMENT|
    ensures ARGUMENT[k].widt > 0
    ensures DetectsBursts(Generator(ARGUMENT[k])) <==> k != 18
  {
    TableWellFormed(k);
    DetectsBurstsExactly(Generator(ARGUMENT[k]));
  }

  /** The bits of two messages agree outside `length` bits from `at` on. */
  ghost predicate DifferInside(s: seq<bool>, t: seq<bool>, at: nat, length: nat) {
    |s| == |t| && at + length <= |s| && s[..at] == t[..at] && s[at + length..] == t[at + length..]
  }

  lemma InsideParts(s: seq<bool>, t: seq<bool>, at: nat, length: nat)
    requires DifferInside(s, t, at, length)
    ensures s == s[..at] + s[at..at + length] + s[at + length..]
    ensures t == s[..at] + t[at..at + length] + s[at + length..]
  {
  }

  lemma BurstChangesRegister(reg: seq<bool>, g: seq<bool>, s: seq<bool>, t: seq<bool>, at: nat, length: nat)
    requires |reg| == |g| > 0 && g[|g| - 1] && DifferInside(s, t, at, length) && length <= |g| && s != t
    ensures Run(reg, g, s) != Run(reg, g, t)
  {
    InsideParts(s, t, at, length);
    BurstDetected(reg, g, s[..at], s[at..at + length], t[at..at + length], s[at + length..]);
  }

  /** Different messages of one length that agree outside `length <= WIDT` bits have different values. */
  lemma BurstChangesValue(k: nat, m: seq<byte>, n: seq<byte>, at: nat, length: nat)
    requires k < |ARGUMENT| && k != 18 && |m| == |n| && m != n && length <= ARGUMENT[k].widt
    requires DifferInside(MessageBits(m, ARGUMENT[k].refi), MessageBits(n, ARGUMENT[k].refi), at, length)
    ensures ARGUMENT[k].widt > 0 && ValueBits(ARGUMENT[k], m) != ValueBits(ARGUMENT[k], n)
  {
    TableWellFormed(k);
    OddChangesValue(ARGUMENT[k], m, n, at, length);
  }

  lemma OddChangesValue(p: Parameters, m: seq<byte>, n: seq<byte>, at: nat, length: nat)
    requires p.poly % 2 == 1 && |m| == |n| && m != n && length <= p.widt && p.widt > 0
    requires DifferInside(MessageBits(m, p.refi), MessageBits(n, p.refi), at, length)
    ensures ValueBits(p, m) != ValueBits(p, n)
  {
    var s, t := MessageBits(m, p.refi), MessageBits(n, p.refi);
    if s == t { MessageBitsInjective(m, n, p.refi); }
    var reg, g := BitsOf(p.init, p.widt), Generator(p);
    BurstChangesRegister(reg, g, s, t, at, length);
    if ValueBits(p, m) == ValueBits(p, n) { FinalBitsInjective(p, Run(reg, g, s), Run(reg, g, t)); }
  }

  /** Every pair of messages of bytes that differ inside a burst of up to WIDT bits have different values. */
  ghost predicate ValuesShowBursts(p: Parameters)
    requires p.widt > 0
  {
    forall m: seq<byte>, n: seq<byte>, at: nat, length: nat ::
      |m| == |n| && m != n && length <= p.widt
      && DifferInside(MessageBits(m, p.refi), MessageBits(n, p.refi), at, length)
      ==> ValueBits(p, m) != ValueBits(p, n)
  }

  /** The bits of one hexadecimal digit. */
  function Digit(d: nat): (s: seq<bool>)
    ensures |s| == 4
  {
    [d / 8 == 1, d / 4 % 2 == 1, d / 2 % 2 == 1, d % 2 == 1]
  }

  lemma LastDigit(c: nat, d: nat, w: nat)
    requires d < 16
    ensures BitsOf(16 * c + d, w + 4) == BitsOf(c, w) + Digit(d)
  {
    var x := 16 * c + d;
    assert x / 2 == 8 * c + d / 2 && x / 2 / 2 == 4 * c + d / 4 && x / 2 / 2 / 2 == 2 * c + d / 8;
    assert BitsOf(x / 2 / 2 / 2, w + 1) == BitsOf(c, w) + [d / 8 == 1];
    assert BitsOf(x / 2 / 2, w + 2) == BitsOf(x / 2 / 2 / 2, w + 1) + [d / 4 % 2 == 1];
    assert BitsOf(x / 2, w + 3) == BitsOf(x / 2 / 2, w + 2) + [d / 2 % 2 == 1];
  }

  lemma TwoDigits(h: nat, l: nat, b: nat)
    requires h < 16 && l < 16 && b == 16 * h + l
    ensures BitsOf(b, 8) == Digit(h) + Digit(l)
  {
    LastDigit(0, h, 0);
    assert [] + Digit(h) == Digit(h);
    LastDigit(h, l, 4);
  }

  lemma FourDigits(h: nat, l: nat, h': nat, l': nat, b: nat, c: nat, x: nat)
    requires h < 16 && l < 16 && h' < 16 && l' < 16 && b == 16 * h + l && c == 16 * b + h' && x == 16 * c + l'
    ensures BitsOf(x, 16) == Digit(h) + Digit(l) + Digit(h') + Digit(l')
  {
    TwoDigits(h, l, b);
    LastDigit(b, h', 8);
    LastDigit(c, l', 12);
  }

  lemma TakenFromLow(b: byte, h: nat, l: nat)
    requires h < 16 && l < 16 && b as int == 16 * h + l
    ensures ByteBits(b, true) == Reversed(Digit(l)) + Reversed(Digit(h))
  {
    TwoDigits(h, l, b);
  }

  lemma {:induction false} BitsOfZero(w: nat)
    ensures BitsOf(0, w) == Zeros(w)
  {
    if w > 0 { BitsOfZero(w - 1); }
  }

  lemma TwoBytes(x: byte, y: byte, refi: bool)
    ensures MessageBits([x, y], refi) == ByteBits(x, refi) + ByteBits(y, refi)
  {
    assert [x, y][..1] == [x] && [x][..0] == [];
    assert MessageBits([x], refi) == MessageBits([], refi) + ByteBits(x, refi);
  }

  lemma Row18()
    ensures ARGUMENT[18].widt == 16 && ARGUMENT[18].refi && BitsOf(ARGUMENT[18].init, 16) == Zeros(16)
    ensures Generator(ARGUMENT[18]) == Digit(8) + Digit(4) + Digit(0) + Digit(8)
  {
    BitsOfZero(16);
    FourDigits(8, 4, 0, 8, 0x84, 0x840, 0x8408);
  }

  /** A message that spells the even generator of row 18 without its constant term, and one of zeros. */
  lemma EvenMessage(p: Parameters, m: seq<byte>, n: seq<byte>)
    requires p.widt > 0 && BitsOf(p.init, p.widt) == Zeros(p.widt) && !Generator(p)[p.widt - 1]
    requires MessageBits(m, p.refi) == [true] + Generator(p)[..p.widt - 1] && MessageBits(n, p.refi) == Zeros(p.widt)
    ensures ValueBits(p, m) == ValueBits(p, n)
  {
    EvenGeneratorMisses(Generator(p));
  }

  lemma Shifted18()
    ensures Reversed(Digit(3)) + Reversed(Digit(4)) + (Reversed(Digit(0)) + Reversed(Digit(2)))
         == [true] + (Digit(8) + Digit(4) + Digit(0) + Digit(8))[..15]
  {
  }

  lemma Row18Messages()
    ensures ARGUMENT[18].widt == 16 && ARGUMENT[18].refi
    ensures MessageBits([0x43, 0x20], true) == [true] + Generator(ARGUMENT[18])[..15]
    ensures MessageBits([0, 0], true) == Zeros(16)
  {
    Row18();
    TakenFromLow(0x43, 4, 3);
    TakenFromLow(0x20, 2, 0);
    Shifted18();
    TwoBytes(0x43, 0x20, true);
    BitsOfZero(8);
    TwoBytes(0, 0, true);
  }

  /** The bytes 0x43, 0x20 leave the register of row 18 where two zero bytes leave it. */
  lemma Row18Misses()
    ensures ARGUMENT[18].widt > 0 && ValueBits(ARGUMENT[18], [0x43, 0x20]) == ValueBits(ARGUMENT[18], [0, 0])
  {
    Row18();
    Row18Messages();
    EvenMessage(ARGUMENT[18], [0x43, 0x20], [0, 0]);
  }

  lemma MissedBurst(p: Parameters, m: seq<byte>, n: seq<byte>)
    requires p.widt > 0 && |m| == |n| && m != n && 8 * |m| == p.widt && ValueBits(p, m) == ValueBits(p, n)
    ensures !ValuesShowBursts(p)
  {
    assert DifferInside(MessageBits(m, p.refi), MessageBits(n, p.refi), 0, p.widt);
  }

  /** The values of a row show every burst of up to WIDT bits if and only if the row is not 18. */
  lemma RowShowsBurstsExactly(k: nat)
    requires k < |ARGUMENT|
    ensures ARGUMENT[k].widt > 0 && (ValuesShowBursts(ARGUMENT[k]) <==> k != 18)
  {
    TableWellFormed(k);
    if k == 18 {
      Row18();
      Row18Misses();
      var m, n: seq<byte> := [0x43, 0x20], [0, 0];
      assert m[0] != n[0];
      MissedBurst(ARGUMENT[18], m, n);
    } else {
      OddShowsBursts(ARGUMENT[k]);
    }
  }

  lemma OddShowsBursts(p: Parameters)
    requires p.widt > 0 && p.poly % 2 == 1
    ensures ValuesShowBursts(p)
  {
    forall m: seq<byte>, n: seq<byte>, at: nat, length: nat
      | |m| == |n| && m != n && length <= p.widt
        && DifferInside(MessageBits(m, p.refi), MessageBits(n, p.refi), at, length)
      ensures ValueBits(p, m) != ValueBits(p, n)
    {
      OddChangesValue(p, m, n, at, length);
    }
  }

  /** REF: the byte read from its other end. */
  method Ref(x0: byte) returns (y: byte)
    ensures BitsOf(y, 8) == Reversed(BitsOf(x0, 8))
  {
    var x: nat, z: nat := x0, 0;
    for i := 0 to 8
      invariant x == Shr(x0, i) && z < Pow2(i)
      invariant BitsOf(z, i) == Reversed(BitsOf(x0, i))
    {
      ReflectStep(x0, z, i, x % 2);
      ShrBit(x0, i);
      z := Or(2 * z, x % 2);
      x := x / 2;
    }
    Pow2Words();
    y := z;
  }

  /** The register word after one bit, as `update` computes it. */
  function WordStep(p: Parameters, crc: nat, b: nat): nat {
    ShrNatural(crc, p.widt);
    var div := Xor(if p.widt == 0 then 0 else Shr(crc, p.widt - 1), b) != 0;
    var shifted := 2 * crc % TWO64;
    And(if div then Xor(shifted, p.poly) else shifted, p.mask)
  }

  lemma ShrNatural(x: nat, w: nat)
    ensures w > 0 ==> Shr(x, w - 1) >= 0
  {
    if w > 0 { ShrBit(x, w - 1); }
  }

  /** The step on the register word is the step on its bits. */
  lemma WordStepBits(p: Parameters, crc: nat, b: nat)
    requires WellFormed(p) && crc < Pow2(p.widt) && b <= 1
    ensures WordStep(p, crc, b) < Pow2(p.widt)
    ensures BitsOf(WordStep(p, crc, b), p.widt) == Step(BitsOf(crc, p.widt), Generator(p), b == 1)
  {
    var w, reg := p.widt, BitsOf(crc, p.widt);
    BitsHead(crc, w);
    ShiftedBits(crc, w);
    var shifted := 2 * crc % TWO64;
    BitsXor(shifted, p.poly, w);
    var c := if reg[0] != (b == 1) then Xor(shifted, p.poly) else shifted;
    assert WordStep(p, crc, b) == And(c, p.mask);
    BitsMask(c, w, w);
    AndMask(c, w);
  }

  lemma ShiftedBits(crc: nat, w: nat)
    requires 0 < w <= 64
    ensures BitsOf(2 * crc % TWO64, w) == BitsOf(crc, w)[1..] + [false]
  {
    BitsOfWord(2 * crc, w);
    BitsTail(crc, w);
    assert BitsOf(2 * crc, w) == BitsOf(crc, w - 1) + [false];
  }

  lemma BitsOfWord(c: nat, w: nat)
    requires w <= 64
    ensures BitsOf(c % TWO64, w) == BitsOf(c, w)
  {
    BitsTruncate(c, w, 64);
    Pow2Words();
  }

  class CRC {
    const kind: nat
    var crc: nat

    ghost predicate Valid()
      reads this
    {
      kind < |ARGUMENT| && WellFormed(ARGUMENT[kind]) && crc < Pow2(ARGUMENT[kind].widt)
    }

    ghost function Register(): seq<bool>
      reads this
      requires Valid()
    {
      BitsOf(crc, ARGUMENT[kind].widt)
    }

    constructor (algorithm: nat)
      requires algorithm < |ARGUMENT|
      ensures kind == algorithm && Valid()
      ensures Register() == BitsOf(ARGUMENT[algorithm].init, ARGUMENT[algorithm].widt)
    {
      kind := algorithm;
      crc := ARGUMENT[algorithm].init;
      TableWellFormed(algorithm);
    }

    method Update(buf: seq<byte>)
      requires Valid()
      modifies this
      ensures Valid()
      ensures Register() == Run(old(Register()), Generator(ARGUMENT[kind]), MessageBits(buf, ARGUMENT[kind].refi))
    {
      var p := ARGUMENT[kind];
      ghost var g, start := Generator(p), Register();
      for i := 0 to |buf|
        invariant Valid()
        invariant Register() == Run(start, g, MessageBits(buf[..i], p.refi))
      {
        RunNextByte(start, g, buf, i, p.refi);
        UpdateByte(buf[i]);
      }
      assert buf[..|buf|] == buf;
    }

    method UpdateByte(b: byte)
      requires Valid()
      modifies this
      ensures Valid()
      ensures Register() == Run(old(Register()), Generator(ARGUMENT[kind]), ByteBits(b, ARGUMENT[kind].refi))
    {
      var p := ARGUMENT[kind];
      ghost var g, start, bits := Generator(p), Register(), ByteBits(b, p.refi);
      var x := b;
      if p.refi {
        x := Ref(b);
      }
      var j := 8;
      while j > 0
        invariant 0 <= j <= 8 && Valid()
        invariant Register() == Run(start, g, bits[..8 - j])
      {
        j := j - 1;
        BitAt(x, 8, j);
        RunSnoc(start, g, bits, 7 - j);
        UpdateBit(Shr(x, j) % 2);
      }
      assert bits[..8] == bits;
    }

    method UpdateBit(bit: nat)
      requires Valid() && bit <= 1
      modifies this
      ensures Valid()
      ensures Register() == Step(old(Register()), Generator(ARGUMENT[kind]), bit == 1)
    {
      var p := ARGUMENT[kind];
      WordStepBits(p, crc, bit);
      ShrNatural(crc, p.widt);
      var div := Xor(Shr(crc, p.widt - 1), bit) != 0;
      crc := 2 * crc % TWO64;
      if div {
        crc := Xor(crc, p.poly);
      }
      crc := And(crc, p.mask);
    }

    method Value() returns (res: nat)
      requires Valid()
      ensures res < Pow2(ARGUMENT[kind].widt)
      ensures BitsOf(res, ARGUMENT[kind].widt) == FinalBits(ARGUMENT[kind], Register())
      ensures var p, w := ARGUMENT[kind], ARGUMENT[kind].widt;
        forall i :: 0 <= i < w ==>
          BitsOf(res, w)[i] == ((if p.refo then Register()[w - 1 - i] else Register()[i]) != BitsOf(p.xoro, w)[i])
    {
      var p := ARGUMENT[kind];
      ghost var reg := Register();
      forall i | 0 <= i < p.widt
        ensures FinalBits(p, reg)[i] == ((if p.refo then reg[p.widt - 1 - i] else reg[i]) != BitsOf(p.xoro, p.widt)[i])
      {
        FinalBitsAt(p, reg, i);
      }
      res := crc;
      if p.refo {
        res := ReflectWord(crc, p.widt);
      }
      BitsXor(res, p.xoro, p.widt);
      BitsMask(Xor(res, p.xoro), p.widt, p.widt);
      AndMask(Xor(res, p.xoro), p.widt);
      res := And(Xor(res, p.xoro), p.mask);
    }
  }

  /** The reflection loop of `value`. */
  method ReflectWord(crc: nat, w: nat) returns (temp: nat)
    requires w <= 64
    ensures BitsOf(temp, w) == Reversed(BitsOf(crc, w))
  {
    temp := 0;
    var res: nat := crc;
    for k := 0 to w
      invariant res == Shr(crc, k) && temp < Pow2(k)
      invariant BitsOf(temp, k) == Reversed(BitsOf(crc, k))
    {
      ReflectStep(crc, temp, k, res % 2);
      ShrBit(crc, k);
      WordFits(temp, k);
      temp := Or(2 * temp % TWO64, res % 2);
      res := res / 2;
    }
  }

  lemma RunNextByte(reg: seq<bool>, g: seq<bool>, m: seq<byte>, i: nat, refi: bool)
    requires |reg| == |g| > 0 && i < |m|
    ensures Run(reg, g, MessageBits(m[..i + 1], refi))
         == Run(Run(reg, g, MessageBits(m[..i], refi)), g, ByteBits(m[i], refi))
  {
    assert m[..i + 1][..i] == m[..i];
    RunConcat(reg, g, MessageBits(m[..i], refi), ByteBits(m[i], refi));
  }

  lemma RunSnoc(reg: seq<bool>, g: seq<bool>, bits: seq<bool>, i: nat)
    requires |reg| == |g| > 0 && i < |bits|
    ensures Run(reg, g, bits[..i + 1]) == Step(Run(reg, g, bits[..i]), g, bits[i])
  {
    var last := [bits[i]];
    assert bits[..i + 1] == bits[..i] + last;
    RunConcat(reg, g, bits[..i], last);
    assert last[1..] == [];
  }

  lemma {:induction false} BitAt(x: nat, w: nat, j: nat)
    requires j < w
    ensures Shr(x, j) >= 0 && BitsOf(x, w)[w - 1 - j] == (Shr(x, j) % 2 == 1)
  {
    if j > 0 { BitAt(x / 2, w - 1, j - 1); }
  }

  lemma WordFits(temp: nat, n: nat)
    requires temp < Pow2(n) && n < 64
    ensures 2 * temp % TWO64 == 2 * temp
  {
    Pow2Monotone(n + 1, 64);
    Pow2Words();
  }
}
