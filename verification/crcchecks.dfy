/**
  What the rows of Cryptography/src/CRC.cpp compute: the value of each for the nine bytes "123456789".  The registers
  are computed on words whose lowest bit is the highest bit of the register.
*/
module CheckValues {
  import opened Words
  import opened CyclicRedundancy

  // --- registers as words ---------------------------------------------------------------------------------

  /** What is needed of a word: the shift to the right, the lowest bit, and exclusive or. */
  datatype Machine<!W> = Machine(half: W -> W, odd: W -> bool, xor: (W, W) -> W)

  ghost predicate Lawful<W(!new)>(o: Machine<W>) {
    forall a, b :: o.half(o.xor(a, b)) == o.xor(o.half(a), o.half(b)) && (o.odd(o.xor(a, b)) <==> o.odd(a) != o.odd(b))
  }

  function LsbFirst<W>(o: Machine<W>, v: W, w: nat): (s: seq<bool>)
    ensures |s| == w
  {
    if w == 0 then [] else [o.odd(v)] + LsbFirst(o, o.half(v), w - 1)
  }

  function Drop<W>(o: Machine<W>, v: W, n: nat): W {
    if n == 0 then v else Drop(o, o.half(v), n - 1)
  }

  /** From bit `w` on there are zeros. */
  ghost predicate FitsIn<W>(o: Machine<W>, v: W, w: nat) {
    forall k: nat :: k >= w ==> !o.odd(Drop(o, v, k))
  }

  lemma {:induction false} NextIsZero<W>(o: Machine<W>, v: W, w: nat)
    requires !o.odd(Drop(o, v, w))
    ensures LsbFirst(o, v, w + 1) == LsbFirst(o, v, w) + [false]
  {
    if w > 0 { NextIsZero(o, o.half(v), w - 1); } else { assert LsbFirst(o, o.half(v), 0) == []; }
  }

  lemma {:induction false} XorLsb<W(!new)>(o: Machine<W>, a: W, b: W, w: nat)
    requires Lawful(o)
    ensures LsbFirst(o, o.xor(a, b), w) == XorBits(LsbFirst(o, a, w), LsbFirst(o, b, w))
    ensures Drop(o, o.xor(a, b), w) == o.xor(Drop(o, a, w), Drop(o, b, w))
  {
    if w > 0 { XorLsb(o, o.half(a), o.half(b), w - 1); }
  }

  lemma HalfFits<W>(o: Machine<W>, v: W, w: nat)
    requires FitsIn(o, v, w)
    ensures FitsIn(o, o.half(v), w)
  {
    forall k: nat | k >= w ensures !o.odd(Drop(o, o.half(v), k)) { assert Drop(o, v, k + 1) == Drop(o, o.half(v), k); }
  }

  lemma XorFits<W(!new)>(o: Machine<W>, a: W, b: W, w: nat)
    requires Lawful(o) && FitsIn(o, a, w) && FitsIn(o, b, w)
    ensures FitsIn(o, o.xor(a, b), w)
  {
    forall k: nat | k >= w ensures !o.odd(Drop(o, o.xor(a, b), k)) { XorLsb(o, a, b, k); }
  }

  function StepOf<W>(o: Machine<W>, v: W, g: W, b: bool): W {
    if o.odd(v) != b then o.xor(o.half(v), g) else o.half(v)
  }

  lemma StepIs<W(!new)>(o: Machine<W>, v: W, g: W, b: bool, w: nat)
    requires Lawful(o) && w > 0 && FitsIn(o, v, w) && FitsIn(o, g, w)
    ensures LsbFirst(o, StepOf(o, v, g, b), w) == Step(LsbFirst(o, v, w), LsbFirst(o, g, w), b)
    ensures FitsIn(o, StepOf(o, v, g, b), w)
  {
    NextIsZero(o, v, w);
    assert LsbFirst(o, v, w + 1)[1..] == LsbFirst(o, o.half(v), w);
    XorLsb(o, o.half(v), g, w);
    HalfFits(o, v, w);
    XorFits(o, o.half(v), g, w);
  }

  function Steps<W>(o: Machine<W>, v: W, g: W, bits: seq<bool>): W {
    if bits == [] then v else Steps(o, StepOf(o, v, g, bits[0]), g, bits[1..])
  }

  lemma {:induction false} StepsAre<W(!new)>(o: Machine<W>, v: W, g: W, bits: seq<bool>, w: nat)
    requires Lawful(o) && w > 0 && FitsIn(o, v, w) && FitsIn(o, g, w)
    ensures LsbFirst(o, Steps(o, v, g, bits), w) == Run(LsbFirst(o, v, w), LsbFirst(o, g, w), bits)
    ensures FitsIn(o, Steps(o, v, g, bits), w)
    decreases bits
  {
    if bits != [] {
      StepIs(o, v, g, bits[0], w);
      StepsAre(o, StepOf(o, v, g, bits[0]), g, bits[1..], w);
    }
  }

  // --- the message ----------------------------------------------------------------------------------------

  function FourOf<W>(o: Machine<W>, v: W, g: W, a: bool, b: bool, c: bool, d: bool): W {
    StepOf(o, StepOf(o, StepOf(o, StepOf(o, v, g, a), g, b), g, c), g, d)
  }

  /** The register after the digit `d` as a character, which is 0x30 + d. */
  function CharOf<W>(o: Machine<W>, v: W, g: W, d: nat, refi: bool): W {
    if refi then
      FourOf(o, FourOf(o, v, g, d % 2 == 1, d / 2 % 2 == 1, d / 4 % 2 == 1, d / 8 == 1), g, true, true, false, false)
    else
      FourOf(o, FourOf(o, v, g, false, false, true, true), g, d / 8 == 1, d / 4 % 2 == 1, d / 2 % 2 == 1, d % 2 == 1)
  }

  lemma FourSteps<W>(o: Machine<W>, v: W, g: W, a: bool, b: bool, c: bool, d: bool, more: seq<bool>)
    ensures Steps(o, v, g, [a, b, c, d] + more) == Steps(o, FourOf(o, v, g, a, b, c, d), g, more)
  {
    FirstStep(o, v, g, a, [b, c, d] + more);
    FirstStep(o, StepOf(o, v, g, a), g, b, [c, d] + more);
    FirstStep(o, StepOf(o, StepOf(o, v, g, a), g, b), g, c, [d] + more);
    FirstStep(o, StepOf(o, StepOf(o, StepOf(o, v, g, a), g, b), g, c), g, d, more);
    assert [a, b, c, d] + more == [a] + ([b, c, d] + more);
    assert [b, c, d] + more == [b] + ([c, d] + more) && [c, d] + more == [c] + ([d] + more);
  }

  lemma FirstStep<W>(o: Machine<W>, v: W, g: W, b: bool, more: seq<bool>)
    ensures Steps(o, v, g, [b] + more) == Steps(o, StepOf(o, v, g, b), g, more)
  {
    assert ([b] + more)[1..] == more;
  }

  lemma CharBits(d: nat, refi: bool)
    requires d < 10
    ensures ByteBits(0x30 + d, refi) ==
      if refi then [d % 2 == 1, d / 2 % 2 == 1, d / 4 % 2 == 1, d / 8 == 1] + ([true, true, false, false] + [])
      else [false, false, true, true] + ([d / 8 == 1, d / 4 % 2 == 1, d / 2 % 2 == 1, d % 2 == 1] + [])
  {
    if refi {
      TakenFromLow(0x30 + d, 3, d);
      DigitFromLow(d);
      DigitFromLow(3);
    } else {
      TwoDigits(3, d, 0x30 + d);
    }
  }

  lemma DigitFromLow(d: nat)
    ensures Reversed(Digit(d)) == [d % 2 == 1, d / 2 % 2 == 1, d / 4 % 2 == 1, d / 8 == 1]
  {
  }

  lemma CharIs<W(!new)>(o: Machine<W>, v: W, g: W, d: nat, refi: bool, w: nat)
    requires Lawful(o) && w > 0 && FitsIn(o, v, w) && FitsIn(o, g, w) && d < 10
    ensures FitsIn(o, CharOf(o, v, g, d, refi), w)
    ensures LsbFirst(o, CharOf(o, v, g, d, refi), w)
         == Run(LsbFirst(o, v, w), LsbFirst(o, g, w), ByteBits(0x30 + d, refi))
  {
    CharBits(d, refi);
    StepsAre(o, v, g, ByteBits(0x30 + d, refi), w);
    CharSteps(o, v, g, d, refi);
  }

  lemma CharSteps<W>(o: Machine<W>, v: W, g: W, d: nat, refi: bool)
    requires d < 10
    ensures Steps(o, v, g, ByteBits(0x30 + d, refi)) == CharOf(o, v, g, d, refi)
  {
    CharBits(d, refi);
    var d3, d2, d1, d0 := d / 8 == 1, d / 4 % 2 == 1, d / 2 % 2 == 1, d % 2 == 1;
    if refi {
      FourSteps(o, v, g, d0, d1, d2, d3, [true, true, false, false] + []);
      FourSteps(o, FourOf(o, v, g, d0, d1, d2, d3), g, true, true, false, false, []);
    } else {
      FourSteps(o, v, g, false, false, true, true, [d3, d2, d1, d0] + []);
      FourSteps(o, FourOf(o, v, g, false, false, true, true), g, d3, d2, d1, d0, []);
    }
  }

  /** "123456789" */
  const NINE: seq<byte> := [0x31, 0x32, 0x33, 0x34, 0x35, 0x36, 0x37, 0x38, 0x39]

  ghost predicate Characters(m: seq<byte>) {
    |m| == 9 && forall i :: 0 <= i < 9 ==> m[i] == 0x31 + i
  }

  lemma NineCharacters()
    ensures Characters(NINE)
  {
  }

  /** The register is `v` after the first `i` characters. */
  ghost predicate After<W>(o: Machine<W>, g: W, refi: bool, start: seq<bool>, v: W, m: seq<byte>, i: nat) {
    var w := |start|;
    && w > 0 && i <= |m| && FitsIn(o, v, w)
    && LsbFirst(o, v, w) == Run(start, LsbFirst(o, g, w), MessageBits(m[..i], refi))
  }

  lemma NineStep<W(!new)>(o: Machine<W>, g: W, refi: bool, start: seq<bool>, v: W, v': W, m: seq<byte>, i: nat)
    requires Lawful(o) && i < 9 && Characters(m) && After(o, g, refi, start, v, m, i) && FitsIn(o, g, |start|)
    requires v' == CharOf(o, v, g, i + 1, refi)
    ensures After(o, g, refi, start, v', m, i + 1)
  {
    var w := |start|;
    CharIs(o, v, g, i + 1, refi, w);
    RunNextByte(start, LsbFirst(o, g, w), m, i, refi);
  }

  lemma NineStart<W(!new)>(o: Machine<W>, g: W, refi: bool, start: seq<bool>, v: W, m: seq<byte>)
    requires |start| > 0 && FitsIn(o, v, |start|) && LsbFirst(o, v, |start|) == start
    ensures After(o, g, refi, start, v, m, 0)
  {
    assert m[..0] == [];
  }

  // --- words of 64 bits -----------------------------------------------------------------------------------

  function HalfBv(v: bv64): bv64 { v >> 1 }

  predicate OddBv(v: bv64) { v & 1 == 1 }

  function XorBv(a: bv64, b: bv64): bv64 { a ^ b }

  const BV: Machine<bv64> := Machine(HalfBv, OddBv, XorBv)

  lemma Half(v: bv64)
    ensures BV.half(v) == v >> 1
  {
  }

  lemma Odd(v: bv64)
    ensures BV.odd(v) == (v & 1 == 1)
  {
  }

  lemma XorShifts(a: bv64, b: bv64)
    ensures (a ^ b) >> 1 == (a >> 1) ^ (b >> 1) && ((a ^ b) & 1 == 1 <==> (a & 1 == 1) != (b & 1 == 1))
  {
  }

  lemma XorLaw(a: bv64, b: bv64)
    ensures HalfBv(XorBv(a, b)) == XorBv(HalfBv(a), HalfBv(b)) && (OddBv(XorBv(a, b)) <==> OddBv(a) != OddBv(b))
  {
    XorShifts(a, b);
  }

  lemma BvLaw(a: bv64, b: bv64)
    ensures BV.half(BV.xor(a, b)) == BV.xor(BV.half(a), BV.half(b))
    ensures BV.odd(BV.xor(a, b)) <==> BV.odd(a) != BV.odd(b)
  {
    XorLaw(a, b);
  }

  lemma BvIsLawful()
    ensures Lawful(BV)
  {
    forall a: bv64, b: bv64
      ensures BV.half(BV.xor(a, b)) == BV.xor(BV.half(a), BV.half(b))
      ensures BV.odd(BV.xor(a, b)) <==> BV.odd(a) != BV.odd(b)
    {
      BvLaw(a, b);
    }
  }

  lemma {:induction false} ZeroDrops(k: nat)
    ensures Drop(BV, 0, k) == 0 && !BV.odd(0)
  {
    if k > 0 { ZeroDrops(k - 1); }
  }

  function StepBv(v: bv64, g: bv64, b: bool): bv64 {
    if (v & 1 == 1) != b then (v >> 1) ^ g else v >> 1
  }

  lemma StepBvIs(v: bv64, g: bv64, b: bool)
    ensures StepBv(v, g, b) == StepOf(BV, v, g, b)
  {
  }

  function FourBv(v: bv64, g: bv64, a: bool, b: bool, c: bool, d: bool): bv64 {
    StepBv(StepBv(StepBv(StepBv(v, g, a), g, b), g, c), g, d)
  }

  lemma FourBvIs(v: bv64, g: bv64, a: bool, b: bool, c: bool, d: bool)
    ensures FourBv(v, g, a, b, c, d) == FourOf(BV, v, g, a, b, c, d)
  {
    StepBvIs(v, g, a);
    StepBvIs(StepBv(v, g, a), g, b);
    StepBvIs(StepBv(StepBv(v, g, a), g, b), g, c);
    StepBvIs(StepBv(StepBv(StepBv(v, g, a), g, b), g, c), g, d);
  }

  /** The register after a character 0x3d, the bits of d lowest first. */
  function CharBv(v: bv64, g: bv64, a: bool, b: bool, c: bool, d: bool, refi: bool): bv64 {
    if refi then FourBv(FourBv(v, g, a, b, c, d), g, true, true, false, false)
    else FourBv(FourBv(v, g, false, false, true, true), g, d, c, b, a)
  }

  predicate HasBits(n: nat, a: bool, b: bool, c: bool, d: bool) {
    a == (n % 2 == 1) && b == (n / 2 % 2 == 1) && c == (n / 4 % 2 == 1) && d == (n / 8 == 1)
  }

  lemma CharBvIs(v: bv64, g: bv64, n: nat, a: bool, b: bool, c: bool, d: bool, refi: bool)
    requires HasBits(n, a, b, c, d)
    ensures CharBv(v, g, a, b, c, d, refi) == CharOf(BV, v, g, n, refi)
  {
    if refi {
      FourBvIs(v, g, a, b, c, d);
      FourBvIs(FourBv(v, g, a, b, c, d), g, true, true, false, false);
    } else {
      FourBvIs(v, g, false, false, true, true);
      FourBvIs(FourBv(v, g, false, false, true, true), g, d, c, b, a);
    }
  }

  // --- numbers and words ----------------------------------------------------------------------------------

  /** The low `w` bits of `v` are those of `n`. */
  ghost predicate IsWord(n: nat, v: bv64, w: nat) {
    BitsOf(n, w) == Reversed(LsbFirst(BV, v, w))
  }

  /** They are those of `n` from the other end. */
  ghost predicate IsTurned(n: nat, v: bv64, w: nat) {
    BitsOf(n, w) == LsbFirst(BV, v, w)
  }

  /** The lowest four bits. */
  function LowFour(v: bv64): seq<bool> {
    [v & 1 != 0, v & 2 != 0, v & 4 != 0, v & 8 != 0]
  }

  lemma FourShifts(v: bv64)
    ensures (((v >> 1) >> 1) >> 1) >> 1 == v >> 4 && (v & 1 == 1 <==> v & 1 != 0)
    ensures ((v >> 1) & 1 == 1 <==> v & 2 != 0) && (((v >> 1) >> 1) & 1 == 1 <==> v & 4 != 0)
    ensures ((((v >> 1) >> 1) >> 1) & 1 == 1 <==> v & 8 != 0)
  {
  }

  lemma HalfFour(v: bv64)
    ensures BV.half(BV.half(BV.half(BV.half(v)))) == v >> 4
    ensures [BV.odd(v), BV.odd(BV.half(v)), BV.odd(BV.half(BV.half(v))), BV.odd(BV.half(BV.half(BV.half(v))))]
         == LowFour(v)
  {
    FourShifts(v);
  }

  lemma LsbOne<W>(o: Machine<W>, v: W, w: nat, v': W)
    requires v' == o.half(v)
    ensures LsbFirst(o, v, w + 1) == [o.odd(v)] + LsbFirst(o, v', w)
  {
  }

  lemma LsbTwo<W>(o: Machine<W>, v: W, w: nat, v1: W, v2: W)
    requires v1 == o.half(v) && v2 == o.half(v1)
    ensures LsbFirst(o, v, w + 2) == [o.odd(v), o.odd(v1)] + LsbFirst(o, v2, w)
  {
    LsbOne(o, v, w + 1, v1);
    LsbOne(o, v1, w, v2);
    Joins([o.odd(v)], [o.odd(v1)], LsbFirst(o, v2, w));
  }

  lemma Joins(s: seq<bool>, t: seq<bool>, u: seq<bool>)
    ensures s + (t + u) == s + t + u
  {
  }

  lemma LsbFour<W>(o: Machine<W>, v: W, w: nat, v1: W, v2: W, v3: W, v4: W)
    requires v1 == o.half(v) && v2 == o.half(v1) && v3 == o.half(v2) && v4 == o.half(v3)
    ensures LsbFirst(o, v, w + 4) == [o.odd(v), o.odd(v1), o.odd(v2), o.odd(v3)] + LsbFirst(o, v4, w)
  {
    LsbTwo(o, v, w + 2, v1, v2);
    LsbTwo(o, v2, w, v3, v4);
    Joins([o.odd(v), o.odd(v1)], [o.odd(v2), o.odd(v3)], LsbFirst(o, v4, w));
  }

  lemma DropFour<W>(o: Machine<W>, v: W, k: nat, v1: W, v2: W, v3: W, v4: W)
    requires v1 == o.half(v) && v2 == o.half(v1) && v3 == o.half(v2) && v4 == o.half(v3)
    ensures Drop(o, v, k + 4) == Drop(o, v4, k)
  {
    assert Drop(o, v, k + 4) == Drop(o, v1, k + 3) == Drop(o, v2, k + 2) == Drop(o, v3, k + 1);
  }

  lemma LsbDigit(v: bv64, v': bv64, w: nat)
    requires v' == v >> 4
    ensures LsbFirst(BV, v, w + 4) == LowFour(v) + LsbFirst(BV, v', w)
    ensures FitsIn(BV, v', w) ==> FitsIn(BV, v, w + 4)
  {
    HalfFour(v);
    var v1 := BV.half(v);
    var v2 := BV.half(v1);
    var v3 := BV.half(v2);
    LsbFour(BV, v, w, v1, v2, v3, v');
    if FitsIn(BV, v', w) {
      forall k: nat | k >= w + 4 ensures !BV.odd(Drop(BV, v, k)) { DropFour(BV, v, k - 4, v1, v2, v3, v'); }
    }
  }

  /** One more digit at the low end of the number. */
  lemma WordDigit(n: nat, c: nat, d: nat, v: bv64, v': bv64, w: nat)
    requires n == 16 * c + d && d < 16 && v' == v >> 4 && IsWord(c, v', w)
    requires LowFour(v) == [d % 2 == 1, d / 2 % 2 == 1, d / 4 % 2 == 1, d / 8 == 1]
    ensures IsWord(n, v, w + 4)
  {
    LastDigit(c, d, w);
    DigitFromLow(d);
    LsbDigit(v, v', w);
    DigitBehind(Digit(d), LsbFirst(BV, v', w));
  }

  lemma DigitBehind(digit: seq<bool>, s: seq<bool>)
    ensures Reversed(Reversed(digit) + s) == Reversed(s) + digit
  {
  }

  lemma {:induction false} BitsJoin(c: nat, d: nat, m: nat, w: nat)
    requires d < Pow2(w)
    ensures BitsOf(c * Pow2(w) + d, m + w) == BitsOf(c, m) + BitsOf(d, w)
    decreases w
  {
    if w == 0 {
      assert BitsOf(d, 0) == [];
    } else {
      BitsJoin(c, d / 2, m, w - 1);
      HalfJoin(c, d, w);
      assert BitsOf(d, w) == BitsOf(d / 2, w - 1) + [d % 2 == 1];
    }
  }

  lemma HalfJoin(c: nat, d: nat, w: nat)
    requires w > 0
    ensures (c * Pow2(w) + d) / 2 == c * Pow2(w - 1) + d / 2 && (c * Pow2(w) + d) % 2 == d % 2
  {
    var x := c * Pow2(w - 1);
    assert c * Pow2(w) == 2 * x by { MulRotate2(c, Pow2(w - 1)); }
  }

  /** One more digit at the high end. */
  lemma TurnedDigit(n: nat, c: nat, d: nat, p: nat, v: bv64, v': bv64, w: nat)
    requires p == Pow2(w) && n == c * p + d && d < p && c < 16 && v' == v >> 4
    requires IsTurned(d, v', w) && FitsIn(BV, v', w) && LowFour(v) == Digit(c)
    ensures IsTurned(n, v, w + 4) && FitsIn(BV, v, w + 4)
  {
    BitsJoin(c, d, 4, w);
    OneDigit(c);
    LsbDigit(v, v', w);
  }

  lemma OneDigit(c: nat)
    requires c < 16
    ensures BitsOf(c, 4) == Digit(c)
  {
    LastDigit(0, c, 0);
    assert [] + Digit(c) == Digit(c);
  }

  lemma Nothing(w: nat)
    ensures IsTurned(0, 0, w) && IsWord(0, 0, w) && FitsIn(BV, 0, w)
  {
    BitsOfZero(w);
    ZeroBits(w);
    forall k: nat | k >= w ensures !BV.odd(Drop(BV, 0, k)) { ZeroDrops(k); }
  }

  lemma {:induction false} ZeroBits(w: nat)
    ensures LsbFirst(BV, 0, w) == Zeros(w)
  {
    if w > 0 {
      Half(0);
      Odd(0);
      ZeroBits(w - 1);
    }
  }

  // --- rows -----------------------------------------------------------------------------------------------

  /** `v` is the register of a row after the first `i` characters; `g` stands for its generator. */
  ghost predicate At(p: Parameters, g: bv64, v: bv64, m: seq<byte>, i: nat) {
    && Characters(m) && FitsIn(BV, g, p.widt) && IsTurned(p.poly, g, p.widt)
    && After(BV, g, p.refi, BitsOf(p.init, p.widt), v, m, i)
  }

  lemma Started(p: Parameters, g: bv64, v: bv64, m: seq<byte>)
    requires Characters(m) && p.widt > 0 && FitsIn(BV, g, p.widt) && FitsIn(BV, v, p.widt)
    requires IsTurned(p.poly, g, p.widt) && IsTurned(p.init, v, p.widt)
    ensures At(p, g, v, m, 0)
  {
    NineStart(BV, g, p.refi, BitsOf(p.init, p.widt), v, m);
  }

  lemma Next(p: Parameters, refi: bool, g: bv64, v: bv64, v': bv64, m: seq<byte>, i: nat)
    requires p.refi == refi && i < 9 && At(p, g, v, m, i) && Leads(v, v', g, i, refi)
    ensures At(p, g, v', m, i + 1)
  {
    BvIsLawful();
    var a, b, c, d :| HasBits(i + 1, a, b, c, d) && CharBv(v, g, a, b, c, d, refi) == v';
    CharBvIs(v, g, i + 1, a, b, c, d, refi);
    NineStep(BV, g, refi, BitsOf(p.init, p.widt), v, v', m, i);
  }

  lemma Checking(p: Parameters, check: nat, g: bv64, v: bv64, m: seq<byte>, x: bv64, c: bv64)
    requires At(p, g, v, m, 9) && c == v ^ x
    requires p.refo ==> IsWord(p.xoro, x, p.widt) && IsWord(check, c, p.widt)
    requires !p.refo ==> IsTurned(p.xoro, x, p.widt) && IsTurned(check, c, p.widt)
    ensures p.widt > 0 && ValueBits(p, m) == BitsOf(check, p.widt)
  {
    var w := p.widt;
    LastRegister(p, g, v, m);
    XorWords(v, x, c, w);
    Finished(p, check, LsbFirst(BV, v, w), LsbFirst(BV, x, w), LsbFirst(BV, c, w));
  }

  lemma LastRegister(p: Parameters, g: bv64, v: bv64, m: seq<byte>)
    requires At(p, g, v, m, 9)
    ensures p.widt > 0
    ensures LsbFirst(BV, v, p.widt) == Run(BitsOf(p.init, p.widt), Generator(p), MessageBits(m, p.refi))
  {
    assert m[..9] == m;
  }

  lemma XorWords(a: bv64, b: bv64, c: bv64, w: nat)
    requires c == a ^ b
    ensures LsbFirst(BV, c, w) == XorBits(LsbFirst(BV, a, w), LsbFirst(BV, b, w))
  {
    BvIsLawful();
    XorLsb(BV, a, b, w);
    XorIs(a, b);
  }

  lemma Finished(p: Parameters, check: nat, reg: seq<bool>, x: seq<bool>, c: seq<bool>)
    requires |reg| == |x| == |c| == p.widt > 0 && c == XorBits(reg, x)
    requires p.refo ==> BitsOf(p.xoro, p.widt) == Reversed(x) && BitsOf(check, p.widt) == Reversed(c)
    requires !p.refo ==> BitsOf(p.xoro, p.widt) == x && BitsOf(check, p.widt) == c
    ensures FinalBits(p, reg) == BitsOf(check, p.widt)
  {
    ReversedXor(reg, x);
  }

  lemma XorIs(a: bv64, b: bv64)
    ensures BV.xor(a, b) == a ^ b
  {
  }

  lemma ReversedXor(s: seq<bool>, t: seq<bool>)
    requires |s| == |t|
    ensures Reversed(XorBits(s, t)) == XorBits(Reversed(s), Reversed(t))
  {
  }

  lemma Powers()
    ensures Pow2(0) == 1 && Pow2(4) == 0x10 && Pow2(8) == 0x100 && Pow2(12) == 0x1000 && Pow2(16) == 0x1_0000
    ensures Pow2(20) == 0x10_0000 && Pow2(24) == 0x100_0000 && Pow2(28) == 0x1000_0000
  {
    Pow2Words();
  }

  lemma TwoShifts(v: bv64)
    ensures (v >> 4) >> 4 == v >> 8
  {
  }

  predicate DigitsMatch(v: bv64, c: nat, d: nat)
    requires c < 16 && d < 16
  {
    LowFour(v) == Digit(c) && LowFour(v >> 4) == Digit(d)
  }

  lemma TurnedTwo(n: nat, c: nat, d: nat, v: bv64, v': bv64, e: nat, p: nat, w: nat)
    requires c < 16 && d < 16 && DigitsMatch(v, c, d) && v' == v >> 8 && p == Pow2(w) && e < p
    requires n == (c * 16 + d) * p + e && IsTurned(e, v', w) && FitsIn(BV, v', w)
    ensures IsTurned(n, v, w + 8) && FitsIn(BV, v, w + 8)
  {
    TwoShifts(v);
    NextPower(p, w, d, e, c, n);
    TurnedDigit(d * p + e, d, e, p, v >> 4, v', w);
    TurnedDigit(n, c, d * p + e, 16 * p, v, v >> 4, w + 4);
  }

  lemma NextPower(p: nat, w: nat, d: nat, e: nat, c: nat, n: nat)
    requires p == Pow2(w) && d < 16 && e < p && n == (c * 16 + d) * p + e
    ensures 16 * p == Pow2(w + 4) && d * p + e < 16 * p && n == c * (16 * p) + (d * p + e)
  {
    assert Pow2(w + 4) == 2 * Pow2(w + 3) == 4 * Pow2(w + 2) == 8 * Pow2(w + 1) == 16 * Pow2(w);
    MulMonotone(p, d, 15);
    assert d * p == p * d;
  }

  /** The same in pairs of digits. */
  lemma WordTwo(n: nat, c: nat, d: nat, e: nat, v: bv64, v': bv64, w: nat)
    requires c < 16 && d < 16 && EndsWith(v, d) && EndsWith(v >> 4, c) && v' == v >> 8
    requires n == (e * 16 + c) * 16 + d
    requires IsWord(e, v', w)
    ensures IsWord(n, v, w + 8)
  {
    TwoShifts(v);
    EndBits(v, d);
    EndBits(v >> 4, c);
    WordDigit(e * 16 + c, e, c, v >> 4, v', w);
    WordDigit(n, e * 16 + c, d, v, v >> 4, w + 4);
  }

  /** The lowest four bits of `v` are those of the digit. */
  predicate EndsWith(v: bv64, d: nat) {
    && (v & 1 != 0) == (d % 2 == 1) && (v & 2 != 0) == (d / 2 % 2 == 1)
    && (v & 4 != 0) == (d / 4 % 2 == 1) && (v & 8 != 0) == (d / 8 == 1)
  }

  lemma EndBits(v: bv64, d: nat)
    requires EndsWith(v, d)
    ensures LowFour(v) == [d % 2 == 1, d / 2 % 2 == 1, d / 4 % 2 == 1, d / 8 == 1]
  {
  }

  ghost predicate Leads(v: bv64, v': bv64, g: bv64, i: nat, refi: bool) {
    exists a, b, c, d :: HasBits(i + 1, a, b, c, d) && CharBv(v, g, a, b, c, d, refi) == v'
  }

  /** The register turns with every character. */
  ghost predicate Takes(at: (bv64, nat) -> bool, g: bv64, refi: bool) {
    forall v: bv64, v': bv64, i: nat :: Leads(v, v', g, i, refi) ==> i < 9 && at(v, i) ==> at(v', i + 1)
  }

  lemma Take(at: (bv64, nat) -> bool, g: bv64, v: bv64, v': bv64, i: nat, refi: bool,
             a: bool, b: bool, c: bool, d: bool)
    requires Takes(at, g, refi) && i < 9 && at(v, i)
    requires HasBits(i + 1, a, b, c, d) && CharBv(v, g, a, b, c, d, refi) == v'
    ensures at(v', i + 1)
  {
    assert Leads(v, v', g, i, refi);
  }

  lemma Taking(p: Parameters, g: bv64, m: seq<byte>, at: (bv64, nat) -> bool, refi: bool)
    requires p.refi == refi && forall v: bv64, i: nat :: at(v, i) <==> At(p, g, v, m, i)
    ensures Takes(at, g, refi)
  {
    forall v: bv64, v': bv64, i: nat | Leads(v, v', g, i, refi)
      ensures i < 9 && at(v, i) ==> at(v', i + 1)
    {
      if i < 9 && at(v, i) { Next(p, refi, g, v, v', m, i); }
    }
  }

  // --- row 20 --------------------------------------------------------------------------------------------

  lemma Ethernet(n: nat, v: bv64, w: nat)
    requires n == 0x4C11DB7 && v == 0xEDB88320 && w == 32
    ensures IsTurned(n, v, w) && FitsIn(BV, v, w)
  {
    Powers();
    Nothing(0);
    TurnedTwo(0xB7, 0xB, 0x7, 0xED, 0x0, 0x0, 0x1, 0);
    TurnedTwo(0x1DB7, 0x1, 0xD, 0xEDB8, 0xED, 0xB7, 0x100, 8);
    TurnedTwo(0xC11DB7, 0xC, 0x1, 0xEDB883, 0xEDB8, 0x1DB7, 0x10000, 16);
    TurnedTwo(0x4C11DB7, 0x0, 0x4, 0xEDB88320, 0xEDB883, 0xC11DB7, 0x1000000, 24);
  }

  lemma AllOnes(n: nat, v: bv64, w: nat)
    requires n == 0xFFFFFFFF && v == 0xFFFFFFFF && w == 32
    ensures IsTurned(n, v, w) && FitsIn(BV, v, w)
  {
    Powers();
    Nothing(0);
    TurnedTwo(0xFF, 0xF, 0xF, 0xFF, 0x0, 0x0, 0x1, 0);
    TurnedTwo(0xFFFF, 0xF, 0xF, 0xFFFF, 0xFF, 0xFF, 0x100, 8);
    TurnedTwo(0xFFFFFF, 0xF, 0xF, 0xFFFFFF, 0xFFFF, 0xFFFF, 0x10000, 16);
    TurnedTwo(0xFFFFFFFF, 0xF, 0xF, 0xFFFFFFFF, 0xFFFFFF, 0xFFFFFF, 0x1000000, 24);
  }

  lemma OnesMask(n: nat, v: bv64, w: nat)
    requires n == 0xFFFFFFFF && v == 0xFFFFFFFF && w == 32
    ensures IsWord(n, v, w)
  {
    Nothing(0);
    WordTwo(0xFF, 0xF, 0xF, 0x0, 0xFF, 0x0, 0);
    WordTwo(0xFFFF, 0xF, 0xF, 0xFF, 0xFFFF, 0xFF, 8);
    WordTwo(0xFFFFFF, 0xF, 0xF, 0xFFFF, 0xFFFFFF, 0xFFFF, 16);
    WordTwo(0xFFFFFFFF, 0xF, 0xF, 0xFFFFFF, 0xFFFFFFFF, 0xFFFFFF, 24);
  }

  lemma Result8(n: nat, v: bv64, w: nat)
    requires n == 0xCB && v == 0xCB && w == 8
    ensures IsWord(n, v, w)
  {
    Nothing(0);
    WordTwo(0xCB, 0xC, 0xB, 0x0, 0xCB, 0x0, 0);
  }

  lemma Result16Ends(v: bv64)
    requires v == 0xCBF4
    ensures EndsWith(v, 0x4) && EndsWith(v >> 4, 0xF)
  {
  }

  lemma Result16(n: nat, v: bv64, w: nat)
    requires n == 0xCBF4 && v == 0xCBF4 && w == 16
    ensures IsWord(n, v, w)
  {
    var e: nat, u: bv64 := n / 256, v >> 8;
    Result8(e, u, 8);
    Result16Ends(v);
    WordTwo(n, 0xF, 0x4, e, v, u, 8);
  }

  lemma Result24Ends(v: bv64)
    requires v == 0xCBF439
    ensures EndsWith(v, 0x9) && EndsWith(v >> 4, 0x3)
  {
  }

  lemma Result24(n: nat, v: bv64, w: nat)
    requires n == 0xCBF439 && v == 0xCBF439 && w == 24
    ensures IsWord(n, v, w)
  {
    var e: nat, u: bv64 := n / 256, v >> 8;
    Result16(e, u, 16);
    Result24Ends(v);
    WordTwo(n, 0x3, 0x9, e, v, u, 16);
  }

  lemma Result32Ends(v: bv64)
    requires v == 0xCBF43926
    ensures EndsWith(v, 0x6) && EndsWith(v >> 4, 0x2)
  {
  }

  lemma Result32(n: nat, v: bv64, w: nat)
    requires n == 0xCBF43926 && v == 0xCBF43926 && w == 32
    ensures IsWord(n, v, w)
  {
    var e: nat, u: bv64 := n / 256, v >> 8;
    Result24(e, u, 24);
    Result32Ends(v);
    WordTwo(n, 0x2, 0x6, e, v, u, 24);
  }

  lemma Turns0(at: (bv64, nat) -> bool, g: bv64)
    requires Takes(at, g, true) && g == 0xEDB88320 && at(0xFFFFFFFF, 0)
    ensures at(0x340AC5E3, 5)
  {
    Take(at, 0xEDB88320, 0xFFFFFFFF, 0x7C231048, 0, true, true, false, false, false);
    Take(at, 0xEDB88320, 0x7C231048, 0xB0ACBB32, 1, true, false, true, false, false);
    Take(at, 0xEDB88320, 0xB0ACBB32, 0x77B79C2D, 2, true, true, true, false, false);
    Take(at, 0xEDB88320, 0x77B79C2D, 0x641C1F5C, 3, true, false, false, true, false);
    Take(at, 0xEDB88320, 0x641C1F5C, 0x340AC5E3, 4, true, true, false, true, false);
  }

  lemma Turns5(at: (bv64, nat) -> bool, g: bv64)
    requires Takes(at, g, true) && g == 0xEDB88320 && at(0x340AC5E3, 5)
    ensures at(0x340BC6D9, 9)
  {
    Take(at, 0xEDB88320, 0x340AC5E3, 0xF68D2C9E, 5, true, false, true, true, false);
    Take(at, 0xEDB88320, 0xF68D2C9E, 0xAFFC9660, 6, true, true, true, true, false);
    Take(at, 0xEDB88320, 0xAFFC9660, 0x651F2550, 7, true, false, false, false, true);
    Take(at, 0xEDB88320, 0x651F2550, 0x340BC6D9, 8, true, true, false, false, true);
  }

  lemma Turns(at: (bv64, nat) -> bool, g: bv64, v: bv64, v': bv64)
    requires Takes(at, g, true) && at(v, 0)
    requires g == 0xEDB88320 && v == 0xFFFFFFFF && v' == 0x340BC6D9
    ensures at(v', 9)
  {
    Turns0(at, g);
    Turns5(at, g);
  }

  lemma Reached20(p: Parameters, m: seq<byte>, g: bv64, v: bv64, v': bv64)
    requires p.refi == true && g == 0xEDB88320 && v == 0xFFFFFFFF && v' == 0x340BC6D9 && At(p, g, v, m, 0)
    ensures At(p, g, v', m, 9)
  {
    var at := (v: bv64, i: nat) => At(p, g, v, m, i);
    Taking(p, g, m, at, true);
    Turns(at, g, v, v');
  }

  lemma Fields20(p: Parameters)
    requires p == ARGUMENT[20]
    ensures p.widt == 32 && p.init == 0xFFFFFFFF && p.poly == 0x4C11DB7 && p.xoro == 0xFFFFFFFF && p.refi && p.refo
  {
  }

  lemma Sum20(p: Parameters, m: seq<byte>, check: nat, g: bv64, v: bv64, v': bv64, x: bv64, c: bv64)
    requires p.widt == 32 && p.init == 0xFFFFFFFF && p.poly == 0x4C11DB7 && p.xoro == 0xFFFFFFFF && p.refi && p.refo
    requires m == NINE && check == 0xCBF43926
    requires g == 0xEDB88320 && v == 0xFFFFFFFF && v' == 0x340BC6D9 && x == 0xFFFFFFFF && c == 0xCBF43926
    ensures p.widt > 0 && ValueBits(p, m) == BitsOf(check, p.widt)
  {
    NineCharacters();
    Ethernet(p.poly, g, p.widt);
    AllOnes(p.init, v, p.widt);
    OnesMask(p.xoro, x, p.widt);
    Result32(check, c, p.widt);
    Started(p, g, v, m);
    Reached20(p, m, g, v, v');
    Checking(p, check, g, v', m, x, c);
  }

  /** CRC-32 of "123456789" is 0xCBF43926. */
  lemma Row20(p: Parameters, m: seq<byte>, check: nat)
    requires p == ARGUMENT[20] && m == NINE && check == 0xCBF43926
    ensures p.widt > 0 && ValueBits(p, m) == BitsOf(check, p.widt)
  {
    Fields20(p);
    Sum20(p, m, check, 0xEDB88320, 0xFFFFFFFF, 0x340BC6D9, 0xFFFFFFFF, 0xCBF43926);
  }

  // --- row 15 --------------------------------------------------------------------------------------------

  lemma Ccitt(n: nat, v: bv64, w: nat)
    requires n == 0x1021 && v == 0x8408 && w == 16
    ensures IsTurned(n, v, w) && FitsIn(BV, v, w)
  {
    Powers();
    Nothing(0);
    TurnedTwo(0x21, 0x2, 0x1, 0x84, 0x0, 0x0, 0x1, 0);
    TurnedTwo(0x1021, 0x1, 0x0, 0x8408, 0x84, 0x21, 0x100, 8);
  }

  lemma HalfOnes(n: nat, v: bv64, w: nat)
    requires n == 0xFFFF && v == 0xFFFF && w == 16
    ensures IsTurned(n, v, w) && FitsIn(BV, v, w)
  {
    Powers();
    Nothing(0);
    TurnedTwo(0xFF, 0xF, 0xF, 0xFF, 0x0, 0x0, 0x1, 0);
    TurnedTwo(0xFFFF, 0xF, 0xF, 0xFFFF, 0xFF, 0xFF, 0x100, 8);
  }

  lemma Turned16(n: nat, v: bv64, w: nat)
    requires n == 0x29B1 && v == 0x8D94 && w == 16
    ensures IsTurned(n, v, w) && FitsIn(BV, v, w)
  {
    Powers();
    Nothing(0);
    TurnedTwo(0xB1, 0xB, 0x1, 0x8D, 0x0, 0x0, 0x1, 0);
    TurnedTwo(0x29B1, 0x2, 0x9, 0x8D94, 0x8D, 0xB1, 0x100, 8);
  }

  lemma Passes0(at: (bv64, nat) -> bool, g: bv64)
    requires Takes(at, g, false) && g == 0x8408 && at(0xFFFF, 0)
    ensures at(0x6A2, 5)
  {
    Take(at, 0x8408, 0xFFFF, 0x41E3, 0, false, true, false, false, false);
    Take(at, 0x8408, 0x41E3, 0x5DBC, 1, false, false, true, false, false);
    Take(at, 0x8408, 0x5DBC, 0x73DA, 2, false, true, true, false, false);
    Take(at, 0x8408, 0x73DA, 0x92CA, 3, false, false, false, true, false);
    Take(at, 0x8408, 0x92CA, 0x6A2, 4, false, true, false, true, false);
  }

  lemma Passes5(at: (bv64, nat) -> bool, g: bv64)
    requires Takes(at, g, false) && g == 0x8408 && at(0x6A2, 5)
    ensures at(0x8D94, 9)
  {
    Take(at, 0x8408, 0x6A2, 0x2F74, 5, false, false, true, true, false);
    Take(at, 0x8408, 0x2F74, 0x18EE, 6, false, true, true, true, false);
    Take(at, 0x8408, 0x18EE, 0xD485, 7, false, false, false, false, true);
    Take(at, 0x8408, 0xD485, 0x8D94, 8, false, true, false, false, true);
  }

  lemma Passes(at: (bv64, nat) -> bool, g: bv64, v: bv64, v': bv64)
    requires Takes(at, g, false) && at(v, 0)
    requires g == 0x8408 && v == 0xFFFF && v' == 0x8D94
    ensures at(v', 9)
  {
    Passes0(at, g);
    Passes5(at, g);
  }

  lemma Reached15(p: Parameters, m: seq<byte>, g: bv64, v: bv64, v': bv64)
    requires p.refi == false && g == 0x8408 && v == 0xFFFF && v' == 0x8D94 && At(p, g, v, m, 0)
    ensures At(p, g, v', m, 9)
  {
    var at := (v: bv64, i: nat) => At(p, g, v, m, i);
    Taking(p, g, m, at, false);
    Passes(at, g, v, v');
  }

  lemma Fields15(p: Parameters)
    requires p == ARGUMENT[15]
    ensures p.widt == 16 && p.init == 0xFFFF && p.poly == 0x1021 && p.xoro == 0x0 && !p.refi && !p.refo
  {
  }

  lemma Sum15(p: Parameters, m: seq<byte>, check: nat, g: bv64, v: bv64, v': bv64, x: bv64, c: bv64)
    requires p.widt == 16 && p.init == 0xFFFF && p.poly == 0x1021 && p.xoro == 0x0 && !p.refi && !p.refo
    requires m == NINE && check == 0x29B1
    requires g == 0x8408 && v == 0xFFFF && v' == 0x8D94 && x == 0x0 && c == 0x8D94
    ensures p.widt > 0 && ValueBits(p, m) == BitsOf(check, p.widt)
  {
    NineCharacters();
    Ccitt(p.poly, g, p.widt);
    HalfOnes(p.init, v, p.widt);
    Nothing(p.widt);
    Turned16(check, c, p.widt);
    Started(p, g, v, m);
    Reached15(p, m, g, v, v');
    Checking(p, check, g, v', m, x, c);
  }

  /** The row that reflects nothing, 0x29B1. */
  lemma Row15(p: Parameters, m: seq<byte>, check: nat)
    requires p == ARGUMENT[15] && m == NINE && check == 0x29B1
    ensures p.widt > 0 && ValueBits(p, m) == BitsOf(check, p.widt)
  {
    Fields15(p);
    Sum15(p, m, check, 0x8408, 0xFFFF, 0x8D94, 0x0, 0x8D94);
  }

  // --- the object ----------------------------------------------------------------------------------------

  /** A fresh CRC-32 object, updated with the nine characters, has this value. */
  method SumOfNine() returns (res: nat)
    ensures res == 0xCBF43926
  {
    var crc := new CRC(20);
    crc.Update(NINE);
    ghost var p, check: nat := ARGUMENT[20], 0xCBF43926;
    Row20(p, NINE, check);
    res := crc.Value();
    Fields20(p);
    SameWord(res, check, p.widt);
  }

  lemma SameWord(res: nat, check: nat, w: nat)
    requires w == 32 && res < Pow2(w) && check < 0x1_0000_0000 && BitsOf(res, w) == BitsOf(check, w)
    ensures res == check
  {
    Pow2Words();
    BitsInjective(res, check, w);
  }
}
