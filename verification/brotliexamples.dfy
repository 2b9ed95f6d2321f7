/**
  Descriptions of prefix codes and a context map, bit by bit: what Compression/src/Brotli.cpp makes of them
  (sections 3.4, 3.5 and 7.3 of RFC 7932).
*/
module BrotliExamples {
  import opened Words
  import opened PrefixCodes
  import opened CanonicalCodes
  import opened CodeLengths
  import opened HuffmanCodes
  import opened ContextMaps

  // --- two symbols ----------------------------------------------------------------------------------------

  /** Two symbols have code length 1, and no other has a code. */
  ghost predicate Pair(lens: seq<byte>, a: nat, b: nat) {
    a < b < |lens| && forall s :: 0 <= s < |lens| ==> lens[s] == if s == a || s == b then 1 else 0
  }

  lemma {:induction false} PairCounts(lens: seq<byte>, a: nat, b: nat, n: nat)
    requires Pair(lens, a, b) && n <= |lens|
    ensures Rank(lens, 1, n) == Symbols(lens, n) == if n <= a then 0 else if n <= b then 1 else 2
  {
    if n > 0 { PairCounts(lens, a, b, n - 1); }
  }

  lemma PairWords(lens: seq<byte>, a: nat, b: nat)
    requires Pair(lens, a, b)
    ensures Symbols(lens, |lens|) == 2
    ensures Word(lens, a) == CodeWord(lens, a) == [false] && Word(lens, b) == CodeWord(lens, b) == [true]
  {
    PairCounts(lens, a, b, a);
    PairCounts(lens, a, b, b);
    PairCounts(lens, a, b, |lens|);
    assert Offset(lens, 0) == 0 && Offset(lens, 1) == 0;
    assert Code(0, 1) == [false] && Code(1, 1) == [true];
  }

  lemma {:induction false} PairEntries(lens: seq<byte>, a: nat, b: nat, n: nat)
    requires Pair(lens, a, b) && n <= |lens|
    ensures var first, second := Entry(Word(lens, a), a), Entry(Word(lens, b), b);
      Book(lens, n) == if n <= a then [] else if n <= b then [first] else [first, second]
  {
    if n > 0 { PairEntries(lens, a, b, n - 1); }
  }

  /** Their code: 0 for the smaller, 1 for the larger. */
  lemma PairBook(lens: seq<byte>, a: nat, b: nat)
    requires Pair(lens, a, b)
    ensures Codebook(lens) == [Entry([false], a), Entry([true], b)]
  {
    PairWords(lens, a, b);
    PairEntries(lens, a, b, |lens|);
  }

  /** A code length code of two symbols: its lengths are 0 but for place `i` and the last. */
  ghost predicate TwoOnes(ls: seq<nat>, i: nat) {
    i + 1 < |ls| <= 18 && forall j :: 0 <= j < |ls| ==> ls[j] == if j == i || j == |ls| - 1 then 1 else 0
  }

  lemma {:induction false} OnesUnits(ls: seq<nat>, i: nat, j: nat)
    requires TwoOnes(ls, i) && j <= |ls|
    ensures UnitSum(ls[..j]) == if j <= i then 0 else if j < |ls| then 16 else 32
  {
    if j > 0 {
      WeightValues();
      assert ls[..j][..j - 1] == ls[..j - 1];
      OnesUnits(ls, i, j - 1);
    }
  }

  lemma OnesAccepted(ls: seq<nat>, i: nat)
    requires TwoOnes(ls, i)
    ensures LengthsFrom(0, ls, 0)
  {
    forall j | 0 <= j <= |ls| ensures UnitSum(ls[..j]) == if j <= i then 0 else if j < |ls| then 16 else 32 {
      OnesUnits(ls, i, j);
    }
    assert ls[..|ls|] == ls;
  }

  // --- complex descriptions -------------------------------------------------------------------------------

  const ONE: seq<bool> := [true, true, true, false]

  function Zeroes(n: nat): seq<bool> {
    seq(n, _ => false)
  }

  lemma FixedWords()
    ensures CodeWord(FIXED, 0) == [false, false] && CodeWord(FIXED, 1) == ONE
  {
    FixedNumbers();
    SpelledOut();
    assert Symbols(FIXED, 2) == 2;
    assert Symbols(FIXED, 4) == 4;
    assert Symbols(FIXED, 6) == 6;
  }

  lemma SpelledOut()
    ensures Code(0, 2) == [false, false] && Code(14, 4) == ONE
  {
    assert Code(3, 2) == [true, true];
    assert Code(7, 3) == [true, true, true];
  }

  lemma SpellOne(ls: seq<nat>, k: nat, more: seq<bool>)
    requires k < |ls| && ls[k] <= 1 && more == SpellLengths(ls, k + 1)
    ensures SpellLengths(ls, k) == (if ls[k] == 0 then [false, false] else ONE) + more
  {
    FixedWords();
  }

  function OnesAndZeros(ls: seq<nat>, k: nat): seq<bool>
    requires k <= |ls|
    decreases |ls| - k
  {
    if k == |ls| then [] else (if ls[k] == 0 then [false, false] else ONE) + OnesAndZeros(ls, k + 1)
  }

  /** How a code length code of two symbols is written. */
  lemma {:induction false} SpelledOnes(ls: seq<nat>, i: nat, k: nat)
    requires TwoOnes(ls, i) && k <= |ls|
    ensures SpellLengths(ls, k) == OnesAndZeros(ls, k)
    decreases |ls| - k
  {
    if k < |ls| {
      SpelledOnes(ls, i, k + 1);
      SpellOne(ls, k, OnesAndZeros(ls, k + 1));
    }
  }

  /** Tokens that stand for these lengths, which take up this much of the space. */
  predicate StandFor(ts: seq<Token>, lens: seq<byte>, used: int) {
    Expand(ts) == lens && Used(ts) == used
  }

  lemma NoTokens()
    ensures StandFor([], [], 0)
  {
  }

  lemma RunUsed(ts: seq<Token>, t: Token, lens: seq<byte>, used: int, v: byte, n: nat, share: int)
    requires StandFor(ts, lens, used) && v <= MAXLEN && Expand(ts + [t]) == lens + Copies(v, n)
    requires share == if v == 0 then 0 else Shl(n, MAXLEN - v)
    ensures StandFor(ts + [t], lens + Copies(v, n), used + share)
  {
    KraftSumRun(lens, v, n);
  }

  lemma AddLiteral(ts: seq<Token>, c: byte, lens: seq<byte>, used: int)
    requires StandFor(ts, lens, used) && 0 < c <= MAXLEN
    ensures StandFor(ts + [Literal(c)], lens + Copies(c, 1), used + Shl(1, MAXLEN - c))
  {
    assert (ts + [Literal(c)])[..|ts|] == ts && Copies(c, 1) == [c];
    RunUsed(ts, Literal(c), lens, used, c, 1, Shl(1, MAXLEN - c));
  }

  lemma AddRepeat(ts: seq<Token>, t: Token, lens: seq<byte>, used: int, v: byte, n: nat)
    requires StandFor(ts, lens, used) && !t.Literal? && Run(ts + [t]) == v && Delta(ts + [t]) == n
    ensures StandFor(ts + [t], lens + Copies(v, n), used + if v == 0 then 0 else Shl(n, MAXLEN - v))
  {
    ExpandStep(ts + [t]);
    assert (ts + [t])[..|ts|] == ts;
    RunUsed(ts, t, lens, used, v, n, if v == 0 then 0 else Shl(n, MAXLEN - v));
  }

  lemma Shares()
    ensures Shl(1, 14) == 0x4000 && Shl(1, 11) == 0x800 && Shl(4, 11) == 0x2000 && Shl(10, 11) == 0x5000
  {
    WeightValues();
    assert Shl(1, 11) == 0x800;
    ShlIsProduct(4, 11);
    ShlIsProduct(10, 11);
    ShlOne(11);
  }

  lemma NotYet(ts: seq<Token>, lens: seq<byte>, used: nat, size: nat)
    requires StandFor(ts, lens, used) && used < SPACE && |lens| < size
    ensures !Complete(size, ts)
  {
  }

  lemma Done(ts: seq<Token>, lens: seq<byte>, size: nat)
    requires StandFor(ts, lens, SPACE) && |lens| <= size
    ensures Complete(size, ts) && FinalLengths(size, ts) == lens + Copies(0, size - |lens|)
  {
  }

  /** The description that is read from some bits, with the code that it describes. */
  ghost predicate Described(bits: seq<bool>, size: nat, d: Description, book: seq<Entry>) {
    && size < TWO64 && Valid(d, size) && BookOf(d, size) == book
    && forall rest :: Describe(bits + rest, size) == Parsed(d, rest)
  }

  lemma ComplexDescribed(size: nat, ls: seq<nat>, ts: seq<Token>, book: seq<Entry>, bits: seq<bool>)
    requires size < TWO64 && ValidComplex(0, ls, ts, size) && BookOf(Complex(0, ls, ts), size) == book
    requires bits == [false, false] + SpellComplex(0, ls, ts, size)
    ensures Described(bits, size, Complex(0, ls, ts), book)
  {
    assert BitsOf(0, 2) == [false, false];
    forall rest ensures Describe(bits + rest, size) == Parsed(Complex(0, ls, ts), rest) {
      DescribeFinds(Complex(0, ls, ts), size, rest);
    }
  }

  // --- a description with a run of zeros ------------------------------------------------------------------

  const ONE_AND_17: seq<nat> := [1, 0, 0, 0, 0, 0, 1]
  const FIVE: seq<Token> := [Literal(1), Zeros(0), Literal(1)]

  lemma OneAnd17(lens: seq<byte>)
    requires lens == Assigned(0, ONE_AND_17)
    ensures TwoOnes(ONE_AND_17, 0) && Pair(lens, 1, 17) && CodeWord(lens, 1) == [false] && CodeWord(lens, 17) == [true]
  {
    AssignedInOrder(0, ONE_AND_17);
    forall s | 0 <= s < 18 ensures lens[s] == if s == 1 || s == 17 then 1 else 0 {}
    PairWords(lens, 1, 17);
  }

  lemma FiveStand(one: seq<Token>, two: seq<Token>)
    requires one == [Literal(1)] && two == one + [Zeros(0)]
    ensures StandFor([], [], 0) && StandFor([] + one, [1], 0x4000) && StandFor(two, [1, 0, 0, 0], 0x4000)
    ensures StandFor(two + one, [1, 0, 0, 0, 1], SPACE)
  {
    NoTokens();
    Shares();
    AddLiteral([], 1, [], 0);
    RepeatOfZeros(one, 0);
    assert [] + one == one;
    ZerosAndOne();
    AddRepeat(one, Zeros(0), [1], 0x4000, 0, 3);
    AddLiteral(two, 1, [1, 0, 0, 0], 0x4000);
  }

  lemma ZerosAndOne()
    ensures [] + Copies(1, 1) == [1] && [1] + Copies(0, 3) == [1, 0, 0, 0]
    ensures [1, 0, 0, 0] + Copies(1, 1) == [1, 0, 0, 0, 1]
  {
  }

  lemma FiveStands()
    ensures StandFor(FIVE[..0], [], 0) && StandFor(FIVE[..1], [1], 0x4000)
    ensures StandFor(FIVE[..2], [1, 0, 0, 0], 0x4000) && StandFor(FIVE, [1, 0, 0, 0, 1], SPACE)
  {
    var one: seq<Token> := [Literal(1)];
    var two := one + [Zeros(0)];
    assert FIVE[..0] == [] && FIVE[..1] == [] + one && FIVE[..2] == two && FIVE == two + one;
    FiveStand(one, two);
  }

  lemma FiveSpelled(lens: seq<byte>)
    requires |lens| == 18 && CodeWord(lens, 1) == [false] && CodeWord(lens, 17) == [true]
    ensures SpellTokens(lens, FIVE, 0) == [false] + [true, false, false, false] + [false]
  {
    assert BitsOf(0, 3) == [false, false, false];
    assert TokenBits(lens, Literal(1)) == [false];
    assert TokenBits(lens, Zeros(0)) == [true, false, false, false];
    assert SpellTokens(lens, FIVE, 3) == [];
    assert SpellTokens(lens, FIVE, 2) == [false];
    assert SpellTokens(lens, FIVE, 1) == [true, false, false, false] + [false];
  }

  lemma FiveFrom(lens: seq<byte>, size: nat)
    requires |lens| == 18 && lens[1] > 0 && lens[17] > 0 && size >= 5
    ensures TokensFrom(lens, size, FIVE, 0)
  {
    FiveStands();
    NotYet(FIVE[..0], [], 0, size);
    NotYet(FIVE[..1], [1], 0x4000, size);
    NotYet(FIVE[..2], [1, 0, 0, 0], 0x4000, size);
    Done(FIVE, [1, 0, 0, 0, 1], size);
  }

  lemma FiveBook(size: nat)
    requires 5 <= size
    ensures |Expand(FIVE)| <= size && FinalLengths(size, FIVE) == [1, 0, 0, 0, 1] + Copies(0, size - 5)
    ensures Codebook(FinalLengths(size, FIVE)) == [Entry([false], 0), Entry([true], 4)]
  {
    FiveStands();
    Done(FIVE, [1, 0, 0, 0, 1], size);
    PairBook(FinalLengths(size, FIVE), 0, 4);
  }

  lemma FiveValid(size: nat, spelled: seq<bool>)
    requires 5 <= size && spelled == [false] + [true, false, false, false] + [false]
    ensures ValidComplex(0, ONE_AND_17, FIVE, size)
    ensures SpellComplex(0, ONE_AND_17, FIVE, size) == ONE + Zeroes(10) + ONE + spelled
  {
    var lens := Assigned(0, ONE_AND_17);
    OneAnd17(lens);
    OnesAccepted(ONE_AND_17, 0);
    FiveFrom(lens, size);
    FiveSpelled(lens);
    SpelledOnes(ONE_AND_17, 0, 0);
    OneZerosOne();
  }

  lemma OneZerosOne()
    ensures OnesAndZeros(ONE_AND_17, 0) == ONE + Zeroes(10) + ONE
  {
    assert OnesAndZeros(ONE_AND_17, 6) == ONE;
    assert OnesAndZeros(ONE_AND_17, 3) == Zeroes(6) + ONE;
    assert OnesAndZeros(ONE_AND_17, 1) == Zeroes(10) + ONE;
  }

  /**
    No length is skipped; 1, 0, 0, 0, 0, 0, 1 are the first seven in their order, so that the symbols 1 and 17 have
    one-bit codes; then come 1, a run of three zeros, and 1: the lengths of the symbols 0 to 4.
  */
  lemma ReadsFive(size: nat, bits: seq<bool>)
    requires 5 <= size < TWO64
    requires bits == [false, false] + (ONE + Zeroes(10) + ONE + ([false] + [true, false, false, false] + [false]))
    ensures Described(bits, size, Complex(0, [1, 0, 0, 0, 0, 0, 1], [Literal(1), Zeros(0), Literal(1)]),
                      [Entry([false], 0), Entry([true], 4)])
    ensures FinalLengths(size, [Literal(1), Zeros(0), Literal(1)]) == [1, 0, 0, 0, 1] + Copies(0, size - 5)
  {
    FiveValid(size, [false] + [true, false, false, false] + [false]);
    FiveBook(size);
    ComplexDescribed(size, ONE_AND_17, FIVE, [Entry([false], 0), Entry([true], 4)], bits);
  }

  // --- a description with repetitions ---------------------------------------------------------------------

  const FOUR_AND_16: seq<nat> := [0, 0, 0, 1, 0, 0, 0, 0, 1]
  const SIXTEEN: seq<Token> := [Literal(4), Literal(4), Again(1), Again(3)]

  lemma FourAnd16(lens: seq<byte>)
    requires lens == Assigned(0, FOUR_AND_16)
    ensures TwoOnes(FOUR_AND_16, 3) && Pair(lens, 4, 16) && CodeWord(lens, 4) == [false] && CodeWord(lens, 16) == [true]
  {
    AssignedInOrder(0, FOUR_AND_16);
    forall s | 0 <= s < 18 ensures lens[s] == if s == 4 || s == 16 then 1 else 0 {}
    PairWords(lens, 4, 16);
  }

  lemma MoreCopies(v: byte, m: nat, n: nat)
    ensures Copies(v, m) + Copies(v, n) == Copies(v, m + n) && [] + Copies(v, m) == Copies(v, m)
  {
  }

  /** The second repetition makes 4 * (4 - 2) + 3 + 3 == 14 of the four that the first one stands for. */
  lemma ChainOfTwo(two: seq<Token>, three: seq<Token>)
    requires two == [Literal(4)] + [Literal(4)] && three == two + [Again(1)]
    ensures Run(three) == 4 && Delta(three) == 4 && Run(three + [Again(3)]) == 4 && Delta(three + [Again(3)]) == 10
  {
    RepeatOfAgain(two, 1);
    RepeatOfAgain(three, 3);
    assert three[..2] == two && (three + [Again(3)])[..3] == three;
    PrevIs(three, 2);
    PrevIs(three + [Again(3)], 2);
  }

  lemma SixteenStand(one: seq<Token>, two: seq<Token>, three: seq<Token>)
    requires one == [Literal(4)] && two == one + one && three == two + [Again(1)]
    ensures StandFor([], [], 0) && StandFor(one, Copies(4, 1), 0x800) && StandFor(two, Copies(4, 2), 0x1000)
    ensures StandFor(three, Copies(4, 6), 0x3000) && StandFor(three + [Again(3)], Copies(4, 16), SPACE)
  {
    NoTokens();
    Shares();
    AddLiteral([], 4, [], 0);
    assert [] + one == one;
    MoreCopies(4, 1, 1);
    AddLiteral(one, 4, Copies(4, 1), 0x800);
    ChainOfTwo(two, three);
    MoreCopies(4, 2, 4);
    AddRepeat(two, Again(1), Copies(4, 2), 0x1000, 4, 4);
    MoreCopies(4, 6, 10);
    AddRepeat(three, Again(3), Copies(4, 6), 0x3000, 4, 10);
  }

  lemma SixteenStands()
    ensures StandFor(SIXTEEN[..0], [], 0) && StandFor(SIXTEEN[..1], Copies(4, 1), 0x800)
    ensures StandFor(SIXTEEN[..2], Copies(4, 2), 0x1000) && StandFor(SIXTEEN[..3], Copies(4, 6), 0x3000)
    ensures StandFor(SIXTEEN, Copies(4, 16), SPACE)
  {
    var one: seq<Token> := [Literal(4)];
    var two := one + one;
    var three := two + [Again(1)];
    assert SIXTEEN[..0] == [] && SIXTEEN[..1] == one && SIXTEEN[..2] == two && SIXTEEN[..3] == three;
    assert SIXTEEN == three + [Again(3)];
    SixteenStand(one, two, three);
  }

  lemma SixteenSpelled(lens: seq<byte>)
    requires |lens| == 18 && CodeWord(lens, 4) == [false] && CodeWord(lens, 16) == [true]
    ensures SpellTokens(lens, SIXTEEN, 0) == [false] + [false] + [true, true, false] + [true, true, true]
  {
    RepetitionBits(lens);
    assert SpellTokens(lens, SIXTEEN, 4) == [];
    assert SpellTokens(lens, SIXTEEN, 3) == [true, true, true];
    assert SpellTokens(lens, SIXTEEN, 2) == [true, true, false] + [true, true, true];
    assert SpellTokens(lens, SIXTEEN, 1) == [false] + [true, true, false] + [true, true, true];
  }

  lemma RepetitionBits(lens: seq<byte>)
    requires |lens| == 18 && CodeWord(lens, 4) == [false] && CodeWord(lens, 16) == [true]
    ensures TokenBits(lens, Literal(4)) == [false]
    ensures TokenBits(lens, Again(1)) == [true, true, false] && TokenBits(lens, Again(3)) == [true, true, true]
  {
    assert BitsOf(1, 2) == [true, false] && BitsOf(3, 2) == [true, true];
  }

  lemma SixteenFrom(lens: seq<byte>, size: nat)
    requires |lens| == 18 && lens[4] > 0 && lens[16] > 0 && size >= 16
    ensures TokensFrom(lens, size, SIXTEEN, 0)
  {
    SixteenStands();
    NotYet(SIXTEEN[..0], [], 0, size);
    NotYet(SIXTEEN[..1], Copies(4, 1), 0x800, size);
    NotYet(SIXTEEN[..2], Copies(4, 2), 0x1000, size);
    NotYet(SIXTEEN[..3], Copies(4, 6), 0x3000, size);
    Done(SIXTEEN, Copies(4, 16), size);
  }

  lemma ZerosOneZerosOne()
    ensures OnesAndZeros(FOUR_AND_16, 0) == Zeroes(6) + ONE + Zeroes(8) + ONE
  {
    assert OnesAndZeros(FOUR_AND_16, 8) == ONE;
    assert OnesAndZeros(FOUR_AND_16, 6) == Zeroes(4) + ONE;
    assert OnesAndZeros(FOUR_AND_16, 4) == Zeroes(8) + ONE;
    assert OnesAndZeros(FOUR_AND_16, 3) == ONE + Zeroes(8) + ONE;
  }

  lemma SixteenValid(size: nat, spelled: seq<bool>)
    requires 16 <= size && spelled == [false] + [false] + [true, true, false] + [true, true, true]
    ensures ValidComplex(0, FOUR_AND_16, SIXTEEN, size)
    ensures SpellComplex(0, FOUR_AND_16, SIXTEEN, size) == Zeroes(6) + ONE + Zeroes(8) + ONE + spelled
  {
    var lens := Assigned(0, FOUR_AND_16);
    FourAnd16(lens);
    OnesAccepted(FOUR_AND_16, 3);
    SixteenFrom(lens, size);
    SixteenSpelled(lens);
    SpelledOnes(FOUR_AND_16, 3, 0);
    ZerosOneZerosOne();
  }

  /**
    The symbols 4 and 16 have one-bit codes; two lengths of 4, a repetition with the extra bits 1 and one that goes
    on with 3 make sixteen lengths of 4.
  */
  lemma ReadsSixteen(size: nat, bits: seq<bool>)
    requires 16 <= size < TWO64
    requires bits == [false, false] +
      (Zeroes(6) + ONE + Zeroes(8) + ONE + ([false] + [false] + [true, true, false] + [true, true, true]))
    ensures Described(bits, size,
                      Complex(0, [0, 0, 0, 1, 0, 0, 0, 0, 1], [Literal(4), Literal(4), Again(1), Again(3)]),
                      Codebook(Copies(4, 16) + Copies(0, size - 16)))
  {
    SixteenValid(size, [false] + [false] + [true, true, false] + [true, true, true]);
    SixteenStands();
    Done(SIXTEEN, Copies(4, 16), size);
    ComplexDescribed(size, FOUR_AND_16, SIXTEEN, Codebook(Copies(4, 16) + Copies(0, size - 16)), bits);
  }

  // --- simple descriptions --------------------------------------------------------------------------------

  lemma ShortCodes()
    ensures Code(0, 1) == [false] && Code(1, 1) == [true]
    ensures Code(0, 2) == [false, false] && Code(1, 2) == [false, true]
    ensures Code(2, 2) == [true, false] && Code(3, 2) == [true, true]
    ensures Code(6, 3) == [true, true, false] && Code(7, 3) == [true, true, true]
  {
  }

  lemma SimpleWord(count: nat, select: bool, i: nat)
    requires 2 <= count <= 4 && i < count
    ensures CodeWord(SimpleLens(count, select), i) == Code(SimpleNumber(count, select, i), SimpleLens(count, select)[i])
  {
    SimpleSymbols(count, select, count);
    SimpleNumbers(count, select, i);
  }

  /** The trees of the four cases, word by word. */
  lemma SimpleTrees(a: nat, b: nat, c: nat, d: nat, select: bool)
    ensures SimpleBook([a], select) == [Entry([], a)]
    ensures SimpleBook([a, b], select) == [Entry([false], a), Entry([true], b)]
    ensures SimpleBook([a, b, c], select) == [Entry([false], a), Entry([true, false], b), Entry([true, true], c)]
    ensures SimpleBook([a, b, c, d], false) ==
      [Entry([false, false], a), Entry([false, true], b), Entry([true, false], c), Entry([true, true], d)]
    ensures SimpleBook([a, b, c, d], true) ==
      [Entry([false], a), Entry([true, false], b), Entry([true, true, false], c), Entry([true, true, true], d)]
  {
    ShortCodes();
    SimpleSymbols(1, select, 1);
    TreeOfTwo(a, b, select);
    TreeOfThree(a, b, c, select);
    TreeOfFour(a, b, c, d, false);
    TreeOfFour(a, b, c, d, true);
  }

  lemma TreeOfTwo(a: nat, b: nat, select: bool)
    ensures SimpleBook([a, b], select) == [Entry(Code(0, 1), a), Entry(Code(1, 1), b)]
  {
    SimpleWord(2, select, 0);
    SimpleWord(2, select, 1);
  }

  lemma TreeOfThree(a: nat, b: nat, c: nat, select: bool)
    ensures SimpleBook([a, b, c], select) == [Entry(Code(0, 1), a), Entry(Code(2, 2), b), Entry(Code(3, 2), c)]
  {
    SimpleWord(3, select, 0);
    SimpleWord(3, select, 1);
    SimpleWord(3, select, 2);
  }

  lemma TreeOfFour(a: nat, b: nat, c: nat, d: nat, select: bool)
    ensures SimpleBook([a, b, c, d], select) ==
      if select then [Entry(Code(0, 1), a), Entry(Code(2, 2), b), Entry(Code(6, 3), c), Entry(Code(7, 3), d)]
      else [Entry(Code(0, 2), a), Entry(Code(1, 2), b), Entry(Code(2, 2), c), Entry(Code(3, 2), d)]
  {
    SimpleWord(4, select, 0);
    SimpleWord(4, select, 1);
    SimpleWord(4, select, 2);
    SimpleWord(4, select, 3);
  }

  /** Four symbols of an alphabet of eight, and the bit that selects the tree. */
  lemma ReadsFour(bits: seq<bool>)
    requires bits == [true, false] + ([true, true] +
      ([true, false, true] + [false, true, false] + [true, true, true] + [true, false, false] + [true]))
    ensures Described(bits, 8, Simple([5, 2, 7, 1], true),
      [Entry([false], 5), Entry([true, false], 2), Entry([true, true, false], 7), Entry([true, true, true], 1)])
  {
    var d := Simple([5, 2, 7, 1], true);
    ThreeBits();
    FourSymbols();
    SimpleTrees(5, 2, 7, 1, true);
    assert Spell(d, 8) == bits;
    forall rest ensures Describe(bits + rest, 8) == Parsed(d, rest) { DescribeFinds(d, 8, rest); }
  }

  lemma ThreeBits()
    ensures AlphabetBits(8) == 3 && Pow2(3) == 8 && BitsOf(1, 2) == [true, false] && BitsOf(3, 2) == [true, true]
    ensures BitsOf(5, 3) == [true, false, true] && BitsOf(2, 3) == [false, true, false]
    ensures BitsOf(7, 3) == [true, true, true] && BitsOf(1, 3) == [true, false, false]
  {
    assert BitLength(7) == 3;
    assert BitsOf(0, 1) == [false] && BitsOf(1, 1) == [true];
  }

  lemma FourSymbols()
    ensures SpellSymbols([5, 2, 7, 1], 3, 0) ==
      [true, false, true] + [false, true, false] + [true, true, true] + [true, false, false]
  {
    ThreeBits();
    assert SpellSymbols([5, 2, 7, 1], 3, 4) == [];
    assert SpellSymbols([5, 2, 7, 1], 3, 3) == [true, false, false];
    assert SpellSymbols([5, 2, 7, 1], 3, 2) == [true, true, true] + [true, false, false];
    assert SpellSymbols([5, 2, 7, 1], 3, 1) == [false, true, false] + [true, true, true] + [true, false, false];
  }

  // --- context maps ---------------------------------------------------------------------------------------

  lemma LoneThree()
    ensures Valid(Simple([3], false), 3) && BookOf(Simple([3], false), 3) == [Entry([], 3)]
    ensures Spell(Simple([3], false), 3) == [true, false] + [false, false] + [true, true]
  {
    assert BitLength(2) == 2 && Pow2(2) == 4;
    assert BitsOf(1, 2) == [true, false] && BitsOf(0, 2) == [false, false] && BitsOf(3, 2) == [true, true];
    assert SpellSymbols([3], 2, 0) == BitsOf(3, 2) + SpellSymbols([3], 2, 1);
    SimpleSymbols(1, false, 1);
  }

  lemma ThreeOnce()
    ensures DescribedMap([false], [Entry([], 3)], 0, 1) == Parsed([3], [])
  {
    StrayEntries([Entry([], 3)], 0, 0, 1);
    assert Repeated([], 1) + [false] == [false] && Copies(3, 1) == [3];
  }

  lemma FourthOfThreeCoded(bits: seq<bool>)
    requires bits == [true, false, false, false, true, true, false]
    ensures CodedMap(bits, 1, 3, 0) == Parsed([3], [])
  {
    LoneThree();
    assert bits == ([true, false] + [false, false] + [true, true]) + [false];
    MapBehind(Simple([3], false), [Entry([], 3)], [false], 0, 1, 3, bits);
    ThreeOnce();
  }

  /**
    Three trees, no run limit, a simple code with the lone symbol 3 (two bits, like those of the alphabet 0, 1, 2):
    the map of one entry names a fourth tree.
  */
  lemma FourthOfThree(bits: seq<bool>)
    requires bits == [true, false, false, false, true, true, false]
    ensures ContextMap([false] + bits, 1, 3) == Parsed([3], [])
  {
    RunMaxExactly([false] + bits, 0, bits);
    FourthOfThreeCoded(bits);
    ContextMapBehind([false] + bits, bits, 1, 3, 0);
  }

  // --- a map with a run and the transform -----------------------------------------------------------------

  lemma TwoOneAlphabet()
    ensures Valid(Simple([2, 1], false), 3)
    ensures BookOf(Simple([2, 1], false), 3) == [Entry([false], 2), Entry([true], 1)]
    ensures Spell(Simple([2, 1], false), 3) == [true, false] + ([true, false] + ([false, true] + [true, false]))
  {
    assert BitLength(2) == 2 && Pow2(2) == 4;
    assert BitsOf(1, 2) == [true, false] && BitsOf(2, 2) == [false, true];
    assert SpellSymbols([2, 1], 2, 2) == [];
    assert SpellSymbols([2, 1], 2, 1) == [true, false];
    SimpleTrees(2, 1, 0, 0, false);
  }

  lemma TreeThenRun(book: seq<Entry>)
    requires book == [Entry([false], 2), Entry([true], 1)]
    ensures DescribedMap([false] + ([true] + ([true] + [true])), book, 1, 4) == Parsed([1, 1, 1, 1], [])
  {
    ApartWords(book);
    var flag: seq<bool> := [true];
    SymbolFinds(book, 0, [true] + ([true] + flag));
    SymbolFinds(book, 1, [true] + flag);
    assert BitsOf(1, 1) == [true] && Pow2(1) == 2;
    FieldExactly([true] + flag, 1, 1, flag);
    RunThree();
    ItemsOfFour(book);
    TransformedRun(flag);
  }

  lemma ApartWords(book: seq<Entry>)
    requires |book| == 2 && book[0].word == [false] && book[1].word == [true]
    ensures PrefixFree(book)
  {
    var f, t: Path := [false], [true];
    assert f[..1][0] != t[..1][0];
    assert !IsPrefix(f, t) && !IsPrefix(t, f);
  }

  lemma RunThree()
    ensures Cells(ZeroRun(1, 1)) == [0, 0, 0] && Cells(TreeNumber(1)) == [1]
  {
    RunLengthsTile(3, 1, 1);
    assert BitLength(3) == 2 && Pow2(1) == 2;
    assert Copies(0, 3) == [0, 0, 0];
  }

  lemma ItemsOfFour(book: seq<Entry>)
    requires NextItem([false] + ([true] + ([true] + [true])), book, 1)
          == Parsed(TreeNumber(1), [true] + ([true] + [true]))
    requires NextItem([true] + ([true] + [true]), book, 1) == Parsed(ZeroRun(1, 1), [true])
    ensures ReadItems([false] + ([true] + ([true] + [true])), book, 1, 4, []) == Parsed([1, 0, 0, 0], [true])
  {
    RunThree();
    assert [] + Cells(TreeNumber(1)) == [1] && [1] + Cells(ZeroRun(1, 1)) == [1, 0, 0, 0];
    assert ReadItems([true], book, 1, 4, [1, 0, 0, 0]) == Parsed([1, 0, 0, 0], [true]);
    assert ReadItems([true] + ([true] + [true]), book, 1, 4, [1]) == Parsed([1, 0, 0, 0], [true]);
  }

  lemma InverseFirst(idx: byte, data: seq<byte>, q: Queue, v: byte)
    requires q[idx] == v
    ensures Inverse([idx] + data, q) == [v] + Inverse(data, Front(q, idx))
  {
    assert ([idx] + data)[1..] == data;
  }

  /** The value that was moved to the front is there for the zeros behind it. */
  lemma TransformedRun(flag: seq<bool>)
    requires flag == [true]
    ensures MapTail([1, 0, 0, 0], flag) == Parsed([1, 1, 1, 1], [])
  {
    OneBitField(flag);
    var q := Front(Identity(), 1);
    FrontAt(Identity(), 1, 0);
    FrontZero(q);
    assert q[0] == 1;
    InverseFirst(0, [], q, 1);
    InverseFirst(0, [0], q, 1);
    InverseFirst(0, [0, 0], q, 1);
    InverseFirst(1, [0, 0, 0], Identity(), 1);
    OnesOfRun(Inverse([], q));
  }

  lemma OnesOfRun(none: seq<byte>)
    requires none == []
    ensures [1] + [0, 0, 0] == [1, 0, 0, 0] && [0] + [0, 0] == [0, 0, 0] && [0] + [0] == [0, 0] && [0] + none == [0]
    ensures [1] + ([1] + ([1] + ([1] + none))) == [1, 1, 1, 1]
  {
  }

  /**
    Two trees and the run limit 1; a simple code with the symbols 2 and 1, in this order; then tree number 1, a run
    with one extra bit, which is set, and the flag of the transform.
  */
  lemma ReadsMap(code: seq<bool>, items: seq<bool>, bits: seq<bool>)
    requires code == [true, false] + ([true, false] + ([false, true] + [true, false]))
    requires items == [false] + ([true] + ([true] + [true]))
    requires bits == [true] + ([false, false, false, false] + (code + items))
    ensures ContextMap(bits, 4, 2) == Parsed([1, 1, 1, 1], [])
  {
    ReadsCoded(code, items, code + items);
    assert BitsOf(0, 4) == [false, false, false, false];
    RunMaxExactly(bits, 1, code + items);
    ContextMapBehind(bits, code + items, 4, 2, 1);
  }

  lemma ReadsCoded(code: seq<bool>, items: seq<bool>, bits: seq<bool>)
    requires code == [true, false] + ([true, false] + ([false, true] + [true, false]))
    requires items == [false] + ([true] + ([true] + [true])) && bits == code + items
    ensures CodedMap(bits, 4, 2, 1) == Parsed([1, 1, 1, 1], [])
  {
    var book := [Entry([false], 2), Entry([true], 1)];
    TwoOneAlphabet();
    TreeThenRun(book);
    MapBehind(Simple([2, 1], false), book, items, 1, 4, 2, bits);
  }

  lemma ContextMapBehind(bits: seq<bool>, rest: seq<bool>, size: nat, trees: nat, relmax: nat)
    requires 2 <= trees < 0x1_0000 && RunMax(bits) == Parsed(relmax, rest) && relmax <= 16
    ensures ContextMap(bits, size, trees) == CodedMap(rest, size, trees, relmax)
  {
  }
}
