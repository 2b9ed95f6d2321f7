/**
  Cryptography/src/MersenneTwister.cpp: the 64-bit Mersenne twister.

  The state array is rewritten in place with wrapping indices; `Element` is the infinite sequence it stands for.
*/
module Mersenne {
  import opened Words
  import RandomScaling

  const N: nat := 312
  const M: nat := 156
  const A: bv64 := 0xB502_6F5A_A966_19E9
  const F: bv64 := 0x5851_F42D_4C95_7F2D
  const LOWER_MASK: bv64 := 0x7FFF_FFFF
  const UPPER_MASK: bv64 := 0xFFFF_FFFF_8000_0000

  function Scramble(x: bv64): bv64 {
    F * (x ^ (x >> 62))
  }

  function Plus(x: bv64, y: bv64): bv64 {
    x + y
  }

  /** What the seeding loop does to a word: its loop variable, counted up as a word, is added to the scrambled word. */
  datatype Seeding<!W> = Seeding(scramble: W -> W, plus: (W, W) -> W, zero: W, one: W) {
    function Counter(i: nat): W {
      if i == 0 then zero else plus(Counter(i - 1), one)
    }

    function Step(previous: W, i: nat): W {
      plus(scramble(previous), Counter(i))
    }
  }

  const SEEDING: Seeding<bv64> := Seeding(Scramble, Plus, 0, 1)

  function SeedStep(previous: bv64, i: nat): bv64 {
    SEEDING.Step(previous, i)
  }

  function Mix(x: bv64, y: bv64, z: bv64): bv64 {
    var u := (x & UPPER_MASK) + (y & LOWER_MASK);
    z ^ (u >> 1) ^ if u & 1 == 1 then A else 0
  }

  function Temper(x: bv64): bv64 {
    var y1 := x ^ ((x >> 29) & 0x5555_5555_5555_5555);
    var y2 := y1 ^ ((y1 << 17) & 0x71D6_7FFF_EDA6_0000);
    var y3 := y2 ^ ((y2 << 37) & 0xFFF7_EEE0_0000_0000);
    y3 ^ (y3 >> 43)
  }

  /**
    The word operations, apart from the array they are applied to: nothing about the order of the array updates
    depends on what they compute.
  */
  datatype Engine<!W> = Engine(step: (W, nat) -> W, mix: (W, W, W) -> W, temper: W -> W)

  const MT19937: Engine<bv64> := Engine(SeedStep, Mix, Temper)

  /** The defining recurrence: N seeded elements, then x(j) from x(j - N), x(j - N + 1) and x(j - N + M). */
  function Element<W>(e: Engine<W>, seed: W, j: nat): W {
    if j == 0 then seed
    else if j < N then e.step(Element(e, seed, j - 1), j)
    else e.mix(Element(e, seed, j - N), Element(e, seed, j - N + 1), Element(e, seed, j - N + M))
  }

  /** `n` consecutive elements. */
  ghost function Elements<W>(e: Engine<W>, seed: W, from: nat, n: nat): (x: seq<W>)
    ensures |x| == n
  {
    seq(n, i requires 0 <= i < n => Element(e, seed, from + i))
  }

  ghost predicate RecursAt<W>(e: Engine<W>, x: seq<W>, i: nat)
    requires i + N < |x|
  {
    x[i + N] == e.mix(x[i], x[i + 1], x[i + M])
  }

  lemma ElementsRecur<W>(e: Engine<W>, seed: W, from: nat)
    ensures forall i :: 0 <= i < N ==> RecursAt(e, Elements(e, seed, from, 2 * N), i)
  {
    var x := Elements(e, seed, from, 2 * N);
    forall i | 0 <= i < N ensures RecursAt(e, x, i) {
      assert x[i + N] == Element(e, seed, from + i + N);
    }
  }

  lemma ElementsHalves<W>(e: Engine<W>, seed: W, from: nat)
    ensures Elements(e, seed, from, 2 * N)[..N] == Elements(e, seed, from, N)
    ensures Elements(e, seed, from, 2 * N)[N..] == Elements(e, seed, from + N, N)
  {
  }

  /** The neighbour and the element half the array ahead, behind or in front of the index. */
  lemma WindowAt<W>(x: seq<W>, i: nat, done: seq<W>, left: seq<W>)
    requires |x| == 2 * N && i < N && done == x[N..N + i] && left == x[i..N]
    ensures x[i + 1] == if i + 1 == N then done[0] else left[1]
    ensures x[i + M] == if i + M < N then left[M] else done[i + M - N]
  {
  }

  lemma WindowMoves<W>(x: seq<W>, i: nat)
    requires |x| == 2 * N && i < N
    ensures x[N..N + i] + [x[i + N]] == x[N..N + i + 1] && x[i..N][1..] == x[i + 1..N]
  {
  }

  class MersenneTwister<W> {
    const MT: array<W>
    const engine: Engine<W>
    var K: nat
    ghost var origin: W
    ghost var base: nat

    /** The array holds N consecutive elements of the sequence of `origin`, from `base` on. */
    ghost predicate Valid()
      reads this, MT
    {
      MT.Length == N && K <= N && MT[..] == Elements(engine, origin, base, N)
    }

    /** The index of the element that the next call of `Random` tempers. */
    ghost function Next(): nat
      reads this
    {
      base + K
    }

    /** The array starts out as zeros; `Seed` comes before any draw. */
    constructor (engine: Engine<W>, zero: W)
      ensures MT.Length == N && fresh(MT) && K == 0 && this.engine == engine
      ensures forall i :: 0 <= i < N ==> MT[i] == zero
    {
      MT := new W[N](_ => zero);
      K := 0;
      this.engine := engine;
      origin, base := zero, 0;
    }

    method Seed(seed: W)
      requires MT.Length == N
      modifies this, MT
      ensures Valid() && origin == seed && Next() == N
    {
      K := N;
      origin, base := seed, 0;
      MT[0] := seed;
      for i := 1 to N
        invariant K == N && origin == seed && base == 0
        invariant forall j :: 0 <= j < i ==> MT[j] == Element(engine, seed, j)
      {
        MT[i] := engine.step(MT[i - 1], i);
      }
    }

    method Twist()
      requires Valid()
      modifies this, MT
      ensures Valid() && origin == old(origin)
      ensures base == old(base) + N && K == 0
    {
      ElementsRecur(engine, origin, base);
      ElementsHalves(engine, origin, base);
      TwistLoop(Elements(engine, origin, base, 2 * N));
      K := 0;
      base := base + N;
    }

    /** The loop of `twist`: `x` is the window before it followed by the window after it. */
    method TwistLoop(ghost x: seq<W>)
      requires MT.Length == N && |x| == 2 * N && MT[..] == x[..N]
      requires forall i :: 0 <= i < N ==> RecursAt(engine, x, i)
      modifies MT
      ensures MT[..] == x[N..]
    {
      for i := 0 to N
        invariant MT[..i] == x[N..N + i] && MT[i..] == x[i..N]
      {
        var next, far := MT[(i + 1) % N], MT[(i + M) % N];
        WindowAt(x, i, MT[..i], MT[i..]);
        assert next == x[i + 1] && far == x[i + M];
        assert RecursAt(engine, x, i);
        ghost var low, high := MT[..i], MT[i..][1..];
        assert MT[i] == MT[i..][0];
        MT[i] := engine.mix(MT[i], next, far);
        assert MT[..i + 1] == low + [x[i + N]] && MT[i + 1..] == high;
        WindowMoves(x, i);
      }
      assert MT[..N] == MT[..] && x[N..N + N] == x[N..];
    }

    method Random() returns (z: W)
      requires Valid()
      modifies this, MT
      ensures Valid() && origin == old(origin) && Next() == old(Next()) + 1
      ensures z == engine.temper(Element(engine, origin, old(Next())))
    {
      if K >= N {
        Twist();
      }
      assert MT[K] == MT[..][K];
      z := engine.temper(MT[K]);
      K := K + 1;
    }
  }

  /** What a caller sees: draw number k after seeding is the tempered element N + k. */
  method Outputs(seed: bv64, count: nat) returns (out: seq<bv64>)
    ensures |out| == count
    ensures forall k :: 0 <= k < count ==> out[k] == Temper(Element(MT19937, seed, N + k))
  {
    out := OutputsOf(MT19937, seed, 0, count);
  }

  method OutputsOf<W>(e: Engine<W>, seed: W, zero: W, count: nat) returns (out: seq<W>)
    ensures |out| == count
    ensures forall k :: 0 <= k < count ==> out[k] == e.temper(Element(e, seed, N + k))
  {
    var g := new MersenneTwister<W>(e, zero);
    g.Seed(seed);
    out := [];
    for k := 0 to count
      invariant g.Valid() && fresh(g) && fresh(g.MT) && g.origin == seed && g.engine == e && g.Next() == N + k
      invariant |out| == k && forall j :: 0 <= j < k ==> out[j] == e.temper(Element(e, seed, N + j))
    {
      var z := g.Random();
      out := out + [z];
    }
  }

  /** `random(max)` of the generator: the drawn word scaled to the range. */
  method RandomBelow(g: MersenneTwister<bv64>, max: nat) returns (r: nat)
    requires g.Valid() && max < TWO64
    modifies g, g.MT
    ensures g.Valid() && g.origin == old(g.origin) && g.Next() == old(g.Next()) + 1
    ensures r == (g.engine.temper(Element(g.engine, g.origin, old(g.Next()))) as nat) * max / TWO64
    ensures max > 0 ==> r < max
  {
    var word := g.Random();
    r := RandomScaling.Scale(word as nat, max);
  }
}
