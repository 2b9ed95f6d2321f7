/**
  `CreateHuffman` of Compression/src/Brotli.cpp: the canonical prefix code of a list of code lengths
  (section 3.2 of RFC 7932), built as a tree.  Code words are measured as intervals of 0 .. 2^15.
*/
module CanonicalCodes {
  import opened Words
  import opened BitStreams
  import opened PrefixCodes

  const MAXLEN := 15
  const SPACE: nat := 0x8000

  /** The low `l` bits of `n`, highest first. */
  function Code(n: nat, l: nat): (p: Path)
    ensures |p| == l
  {
    if l == 0 then [] else Code(n / 2, l - 1) + [n % 2 == 1]
  }

  // --- canonical numbering --------------------------------------------------------------------------------

  predicate Lengths(lens: seq<byte>) {
    forall i :: 0 <= i < |lens| ==> lens[i] <= MAXLEN
  }

  /** How many of the first `i` symbols have code length `l`. */
  function Rank(lens: seq<byte>, l: nat, i: nat): nat
    requires i <= |lens|
  {
    if i == 0 then 0 else Rank(lens, l, i - 1) + if lens[i - 1] == l then 1 else 0
  }

  function Count(lens: seq<byte>, l: nat): nat {
    if l == 0 then 0 else Rank(lens, l, |lens|)
  }

  /** The first code of length `l`. */
  function Offset(lens: seq<byte>, l: nat): nat {
    if l == 0 then 0 else 2 * (Offset(lens, l - 1) + Count(lens, l - 1))
  }

  function CodeNumber(lens: seq<byte>, s: nat): nat
    requires s < |lens|
  {
    Offset(lens, lens[s]) + Rank(lens, lens[s], s)
  }

  function Word(lens: seq<byte>, s: nat): Path
    requires s < |lens|
  {
    Code(CodeNumber(lens, s), lens[s])
  }

  function Symbols(lens: seq<byte>, n: nat): nat
    requires n <= |lens|
  {
    if n == 0 then 0 else Symbols(lens, n - 1) + if lens[n - 1] > 0 then 1 else 0
  }

  function Last(lens: seq<byte>, n: nat): nat
    requires n <= |lens|
  {
    if n == 0 then 0 else if lens[n - 1] > 0 then n - 1 else Last(lens, n - 1)
  }

  function Book(lens: seq<byte>, n: nat): seq<Entry>
    requires n <= |lens|
  {
    if n == 0 then []
    else if lens[n - 1] > 0 then Book(lens, n - 1) + [Entry(Word(lens, n - 1), n - 1)]
    else Book(lens, n - 1)
  }

  /** A lone symbol has the empty code word. */
  function Codebook(lens: seq<byte>): seq<Entry> {
    if Symbols(lens, |lens|) == 1 then [Entry([], Last(lens, |lens|))] else Book(lens, |lens|)
  }

  // --- the measure of code words --------------------------------------------------------------------------

  function NumberOf(p: Path): nat {
    if p == [] then 0 else 2 * NumberOf(p[..|p| - 1]) + BitValue(p[|p| - 1])
  }

  lemma {:induction false} NumberOfCode(n: nat, l: nat)
    requires n < Pow2(l)
    ensures NumberOf(Code(n, l)) == n
  {
    if l > 0 {
      NumberOfCode(n / 2, l - 1);
      assert Code(n, l)[..l - 1] == Code(n / 2, l - 1);
    }
  }

  lemma CodeAppends(n: nat, b: bool, l: nat)
    ensures Code(2 * n + BitValue(b), l + 1) == Code(n, l) + [b]
  {
    var m := 2 * n + BitValue(b);
    assert m / 2 == n && (m % 2 == 1 <==> b);
  }

  lemma {:induction false} CodeOfNumber(p: Path)
    ensures Code(NumberOf(p), |p|) == p
  {
    if p != [] {
      CodeOfNumber(p[..|p| - 1]);
      CodeAppends(NumberOf(p[..|p| - 1]), p[|p| - 1], |p| - 1);
      assert p == p[..|p| - 1] + [p[|p| - 1]];
    }
  }

  /** The points below the node at `p`. */
  predicate Contains(p: Path, x: int) {
    |p| <= MAXLEN && Shl(NumberOf(p), MAXLEN - |p|) <= x < Shl(NumberOf(p) + 1, MAXLEN - |p|)
  }

  lemma ParentContains(p: Path, x: int)
    requires p != [] && Contains(p, x)
    ensures Contains(p[..|p| - 1], x)
  {
    var n, b, k := NumberOf(p[..|p| - 1]), BitValue(p[|p| - 1]), MAXLEN - |p|;
    ShlAdd(n, 1, k);
    ShlAdd(n + 1, 1, k);
    assert Shl(n, 1) == 2 * n && Shl(n + 1, 1) == 2 * n + 2;
    ShlMonotone(2 * n, 2 * n + b, k);
    ShlMonotone(2 * n + b + 1, 2 * n + 2, k);
  }

  lemma {:induction false} PrefixContains(p: Path, q: Path, x: int)
    requires IsPrefix(p, q) && Contains(q, x)
    ensures Contains(p, x)
    decreases |q|
  {
    if |p| < |q| {
      ParentContains(q, x);
      assert q[..|q| - 1][..|p|] == q[..|p|];
      PrefixContains(p, q[..|q| - 1], x);
    } else {
      assert q[..|p|] == q;
    }
  }

  lemma SameLength(p: Path, q: Path, x: int)
    requires |p| == |q| && Contains(p, x) && Contains(q, x)
    ensures p == q
  {
    var m, n, k := NumberOf(p), NumberOf(q), MAXLEN - |p|;
    if m < n { ShlMonotone(m + 1, n, k); } else if n < m { ShlMonotone(n + 1, m, k); }
    CodeOfNumber(p);
    CodeOfNumber(q);
  }

  /** Two nodes above the same point are on one path. */
  lemma Nested(p: Path, q: Path, x: int)
    requires |p| <= |q| && Contains(p, x) && Contains(q, x)
    ensures IsPrefix(p, q)
  {
    PrefixContains(q[..|p|], q, x);
    SameLength(p, q[..|p|], x);
  }

  /** The space taken by all code words shorter than `l`. */
  function Level(lens: seq<byte>, l: nat): int
    requires l <= MAXLEN + 1
  {
    if l == 0 then 0 else Level(lens, l - 1) + Shl(Count(lens, l - 1), MAXLEN - (l - 1))
  }

  /** The sum of the Kraft inequality, in units of 2^-15. */
  function Kraft(lens: seq<byte>): int {
    Level(lens, MAXLEN + 1)
  }

  /** The space taken by the code words before symbol `i` of length `l` in canonical order. */
  function Start(lens: seq<byte>, l: nat, i: nat): int
    requires l <= MAXLEN && i <= |lens|
  {
    Level(lens, l) + Shl(Rank(lens, l, i), MAXLEN - l)
  }

  lemma {:induction false} OffsetLevel(lens: seq<byte>, l: nat)
    requires l <= MAXLEN
    ensures Shl(Offset(lens, l), MAXLEN - l) == Level(lens, l)
  {
    if l == 0 {
      ShlIsProduct(0, MAXLEN);
    } else {
      var o, c, k := Offset(lens, l - 1), Count(lens, l - 1), MAXLEN - l;
      OffsetLevel(lens, l - 1);
      ShlSum(o, c, k + 1);
      ShlAdd(o + c, 1, k);
      assert Shl(o + c, 1) == 2 * (o + c);
    }
  }

  lemma NumberStart(lens: seq<byte>, s: nat)
    requires s < |lens| && lens[s] <= MAXLEN
    ensures Shl(CodeNumber(lens, s), MAXLEN - lens[s]) == Start(lens, lens[s], s)
    ensures Shl(CodeNumber(lens, s) + 1, MAXLEN - lens[s]) == Start(lens, lens[s], s + 1)
  {
    var l, o := lens[s], Offset(lens, lens[s]);
    OffsetLevel(lens, l);
    ShlSum(o, Rank(lens, l, s), MAXLEN - l);
    ShlSum(o, Rank(lens, l, s + 1), MAXLEN - l);
  }

  lemma {:induction false} RankMonotone(lens: seq<byte>, l: nat, i: nat, j: nat)
    requires i <= j <= |lens|
    ensures Rank(lens, l, i) <= Rank(lens, l, j)
  {
    if i < j { RankMonotone(lens, l, i, j - 1); }
  }

  lemma StartMonotone(lens: seq<byte>, l: nat, i: nat, j: nat)
    requires l <= MAXLEN && i <= j <= |lens|
    ensures Start(lens, l, i) <= Start(lens, l, j)
  {
    RankMonotone(lens, l, i, j);
    ShlMonotone(Rank(lens, l, i), Rank(lens, l, j), MAXLEN - l);
  }

  lemma {:induction false} LevelMonotone(lens: seq<byte>, l: nat, m: nat)
    requires l <= m <= MAXLEN + 1
    ensures Level(lens, l) <= Level(lens, m)
  {
    if l < m {
      LevelMonotone(lens, l, m - 1);
      ShlNonNegative(Count(lens, m - 1), MAXLEN - (m - 1));
    }
  }

  lemma LevelEnd(lens: seq<byte>, l: nat)
    requires 0 < l <= MAXLEN
    ensures Start(lens, l, 0) == Level(lens, l) && Start(lens, l, |lens|) == Level(lens, l + 1)
  {
    ShlIsProduct(0, MAXLEN - l);
  }

  predicate Before(lens: seq<byte>, s: nat, t: nat)
    requires s < |lens| && t < |lens|
  {
    lens[s] < lens[t] || (lens[s] == lens[t] && s < t)
  }

  lemma StartOrder(lens: seq<byte>, s: nat, t: nat)
    requires s < |lens| && t < |lens| && 0 < lens[s] && lens[t] <= MAXLEN && Before(lens, s, t)
    ensures Start(lens, lens[s], s + 1) <= Start(lens, lens[t], t)
  {
    if lens[s] == lens[t] {
      StartMonotone(lens, lens[s], s + 1, t);
    } else {
      StartMonotone(lens, lens[s], s + 1, |lens|);
      LevelEnd(lens, lens[s]);
      LevelMonotone(lens, lens[s] + 1, lens[t]);
      LevelEnd(lens, lens[t]);
      StartMonotone(lens, lens[t], 0, t);
    }
  }

  lemma EndInKraft(lens: seq<byte>, s: nat)
    requires s < |lens| && 0 < lens[s] <= MAXLEN
    ensures 0 <= Start(lens, lens[s], s) && Start(lens, lens[s], s + 1) <= Kraft(lens)
  {
    StartMonotone(lens, lens[s], s + 1, |lens|);
    StartMonotone(lens, lens[s], 0, s);
    LevelEnd(lens, lens[s]);
    LevelMonotone(lens, 0, lens[s]);
    LevelMonotone(lens, lens[s] + 1, MAXLEN + 1);
  }

  lemma SpaceIsPower(l: nat)
    requires l <= MAXLEN
    ensures Shl(Pow2(l), MAXLEN - l) == SPACE
  {
    ShlOne(l);
    ShlAdd(1, l, MAXLEN - l);
    ShlOne(MAXLEN);
    assert Pow2(8) == 256 && Pow2(15) == SPACE;
  }

  lemma NumberFits(lens: seq<byte>, s: nat)
    requires s < |lens| && 0 < lens[s] <= MAXLEN && Start(lens, lens[s], s + 1) <= SPACE
    ensures CodeNumber(lens, s) < Pow2(lens[s])
  {
    var l, n := lens[s], CodeNumber(lens, s);
    NumberStart(lens, s);
    SpaceIsPower(l);
    if n >= Pow2(l) { ShlMonotone(Pow2(l), n + 1, MAXLEN - l); }
  }

  /** With room for all code words, each covers exactly the space after the code words before it. */
  lemma WordContains(lens: seq<byte>, s: nat, x: int)
    requires s < |lens| && 0 < lens[s] <= MAXLEN && Start(lens, lens[s], s + 1) <= SPACE
    ensures Contains(Word(lens, s), x) <==> Start(lens, lens[s], s) <= x < Start(lens, lens[s], s + 1)
  {
    NumberFits(lens, s);
    NumberOfCode(CodeNumber(lens, s), lens[s]);
    NumberStart(lens, s);
  }

  lemma StartProper(lens: seq<byte>, s: nat)
    requires s < |lens| && lens[s] <= MAXLEN
    ensures Start(lens, lens[s], s) < Start(lens, lens[s], s + 1)
  {
    ShlMonotone(Rank(lens, lens[s], s), Rank(lens, lens[s], s + 1), MAXLEN - lens[s]);
  }

  /** No code word is the beginning of another. */
  lemma WordsApart(lens: seq<byte>, s: nat, t: nat)
    requires Lengths(lens) && Kraft(lens) <= SPACE && s < |lens| && t < |lens| && s != t && lens[s] > 0 && lens[t] > 0
    ensures !IsPrefix(Word(lens, s), Word(lens, t))
  {
    if IsPrefix(Word(lens, s), Word(lens, t)) {
      var x := Start(lens, lens[t], t);
      EndInKraft(lens, s);
      EndInKraft(lens, t);
      StartProper(lens, t);
      WordContains(lens, t, x);
      PrefixContains(Word(lens, s), Word(lens, t), x);
      WordContains(lens, s, x);
      if Before(lens, s, t) { StartOrder(lens, s, t); } else { StartOrder(lens, t, s); }
    }
  }

  /** Every point of the covered space lies below a code word. */
  lemma {:induction false} CoveredBelow(lens: seq<byte>, x: int, l: nat) returns (s: nat)
    requires l <= MAXLEN + 1 && 0 <= x < Level(lens, l)
    ensures s < |lens| && 0 < lens[s] <= MAXLEN && Start(lens, lens[s], s) <= x < Start(lens, lens[s], s + 1)
  {
    if x < Level(lens, l - 1) {
      s := CoveredBelow(lens, x, l - 1);
    } else {
      ShlIsProduct(0, MAXLEN);
      assert l > 1;
      LevelEnd(lens, l - 1);
      s := CoveredAt(lens, x, l - 1, |lens|);
    }
  }

  lemma {:induction false} CoveredAt(lens: seq<byte>, x: int, l: nat, n: nat) returns (s: nat)
    requires 0 < l <= MAXLEN && n <= |lens| && Start(lens, l, 0) <= x < Start(lens, l, n)
    ensures s < n && lens[s] == l && Start(lens, l, s) <= x < Start(lens, l, s + 1)
  {
    if x < Start(lens, l, n - 1) { s := CoveredAt(lens, x, l, n - 1); } else { s := n - 1; }
  }

  // --- the sum over symbols -------------------------------------------------------------------------------

  /** The space a code word of length `l` takes; none for an absent symbol. */
  function Weight(l: nat): int
    requires l <= MAXLEN
  {
    if l == 0 then 0 else Shl(1, MAXLEN - l)
  }

  function KraftSum(lens: seq<byte>, n: nat): int
    requires n <= |lens| && Lengths(lens)
  {
    if n == 0 then 0 else KraftSum(lens, n - 1) + Weight(lens[n - 1])
  }

  function LevelUpTo(lens: seq<byte>, n: nat, l: nat): int
    requires n <= |lens| && l <= MAXLEN + 1
  {
    if l == 0 then 0
    else LevelUpTo(lens, n, l - 1) + Shl(if l == 1 then 0 else Rank(lens, l - 1, n), MAXLEN - (l - 1))
  }

  lemma {:induction false} LevelUpToStep(lens: seq<byte>, n: nat, l: nat)
    requires n < |lens| && l <= MAXLEN + 1 && lens[n] <= MAXLEN
    ensures LevelUpTo(lens, n + 1, l) == LevelUpTo(lens, n, l) + if lens[n] < l then Weight(lens[n]) else 0
  {
    if l > 0 {
      LevelUpToStep(lens, n, l - 1);
      ShlSum(Rank(lens, l - 1, n), 1, MAXLEN - (l - 1));
    }
  }

  lemma {:induction false} LevelUpToZero(lens: seq<byte>, l: nat)
    requires l <= MAXLEN + 1
    ensures LevelUpTo(lens, 0, l) == 0
  {
    if l > 0 {
      LevelUpToZero(lens, l - 1);
      ShlIsProduct(0, MAXLEN - (l - 1));
    }
  }

  lemma {:induction false} LevelUpToAll(lens: seq<byte>, l: nat)
    requires l <= MAXLEN + 1
    ensures LevelUpTo(lens, |lens|, l) == Level(lens, l)
  {
    if l > 0 { LevelUpToAll(lens, l - 1); }
  }

  lemma {:induction false} KraftUpTo(lens: seq<byte>, n: nat)
    requires n <= |lens| && Lengths(lens)
    ensures KraftSum(lens, n) == LevelUpTo(lens, n, MAXLEN + 1)
  {
    if n == 0 {
      LevelUpToZero(lens, MAXLEN + 1);
    } else {
      KraftUpTo(lens, n - 1);
      LevelUpToStep(lens, n - 1, MAXLEN + 1);
    }
  }

  /** The Kraft sum over symbols is the space taken by all lengths together. */
  lemma KraftIsSum(lens: seq<byte>)
    requires Lengths(lens)
    ensures KraftSum(lens, |lens|) == Kraft(lens)
  {
    KraftUpTo(lens, |lens|);
    LevelUpToAll(lens, MAXLEN + 1);
  }

  // --- the code book --------------------------------------------------------------------------------------

  lemma {:induction false} BookEntry(lens: seq<byte>, n: nat, i: nat)
    requires n <= |lens| && i < |Book(lens, n)|
    ensures var s := Book(lens, n)[i].value;
      s < n && lens[s] > 0 && Book(lens, n)[i].word == Word(lens, s)
  {
    if lens[n - 1] == 0 || i < |Book(lens, n)| - 1 { BookEntry(lens, n - 1, i); }
  }

  lemma {:induction false} BookRises(lens: seq<byte>, n: nat, i: nat, j: nat)
    requires n <= |lens| && i < j < |Book(lens, n)|
    ensures Book(lens, n)[i].value < Book(lens, n)[j].value
  {
    if lens[n - 1] == 0 || j < |Book(lens, n)| - 1 {
      BookRises(lens, n - 1, i, j);
    } else {
      BookEntry(lens, n - 1, i);
    }
  }

  lemma {:induction false} BookHas(lens: seq<byte>, n: nat, s: nat) returns (i: nat)
    requires s < n <= |lens| && lens[s] > 0
    ensures i < |Book(lens, n)| && Book(lens, n)[i] == Entry(Word(lens, s), s)
  {
    if s == n - 1 { i := |Book(lens, n)| - 1; } else { i := BookHas(lens, n - 1, s); }
  }

  lemma {:induction false} BookSize(lens: seq<byte>, n: nat)
    requires n <= |lens|
    ensures |Book(lens, n)| == Symbols(lens, n)
  {
    if n > 0 { BookSize(lens, n - 1); }
  }

  lemma BookPrefixFree(lens: seq<byte>)
    requires Lengths(lens) && Kraft(lens) <= SPACE
    ensures PrefixFree(Book(lens, |lens|))
  {
    var book := Book(lens, |lens|);
    forall i, j | 0 <= i < |book| && 0 <= j < |book| && i != j ensures !IsPrefix(book[i].word, book[j].word) {
      BookEntry(lens, |lens|, i);
      BookEntry(lens, |lens|, j);
      if i < j { BookRises(lens, |lens|, i, j); } else { BookRises(lens, |lens|, j, i); }
      WordsApart(lens, book[i].value, book[j].value);
    }
  }

  // --- what the tree decodes ------------------------------------------------------------------------------

  /** The tree reads the code word of `s` to its last bit and answers `s`. */
  predicate Finds(lens: seq<byte>, s: nat)
    requires s < |lens|
  {
    var shape := ShapeOf(Codebook(lens));
    && Walk(shape, [], Word(lens, s)) == Stop(Word(lens, s))
    && Word(lens, s) in shape && shape[Word(lens, s)] == s
  }

  /** Within the Kraft bound every code word is decoded, whatever follows it. */
  lemma DecodesSymbol(lens: seq<byte>, s: nat, rest: seq<bool>)
    requires Lengths(lens) && Symbols(lens, |lens|) != 1 && Kraft(lens) <= SPACE && s < |lens| && lens[s] > 0
    ensures Walk(ShapeOf(Codebook(lens)), [], Word(lens, s) + rest) == Stop(Word(lens, s))
    ensures Finds(lens, s) && |Word(lens, s)| == lens[s]
  {
    BookPrefixFree(lens);
    var i := BookHas(lens, |lens|, s);
    WalkFinds(Codebook(lens), i, rest);
    WalkFinds(Codebook(lens), i, []);
    assert Word(lens, s) + [] == Word(lens, s);
  }

  /** A lone symbol is decoded without reading anything. */
  lemma DecodesLone(lens: seq<byte>, bits: seq<bool>)
    requires Symbols(lens, |lens|) == 1
    ensures var shape := ShapeOf(Codebook(lens));
      Walk(shape, [], bits) == Stop([]) && [] in shape && shape[[]] == Last(lens, |lens|)
  {
    var e := Codebook(lens);
    assert PrefixFree(e);
    WalkFinds(e, 0, bits);
    assert [] + bits == bits;
  }

  lemma {:induction false} LastIsSymbol(lens: seq<byte>, n: nat)
    requires n <= |lens| && Symbols(lens, n) == 1
    ensures Last(lens, n) < n && lens[Last(lens, n)] > 0
    ensures forall s :: 0 <= s < n && lens[s] > 0 ==> s == Last(lens, n)
  {
    if lens[n - 1] == 0 {
      LastIsSymbol(lens, n - 1);
    } else {
      NoSymbols(lens, n - 1);
    }
  }

  lemma {:induction false} NoSymbols(lens: seq<byte>, n: nat)
    requires n <= |lens| && Symbols(lens, n) == 0
    ensures forall s :: 0 <= s < n ==> lens[s] == 0
  {
    if n > 0 { NoSymbols(lens, n - 1); }
  }

  lemma PointOf(q: Path) returns (x: int)
    requires |q| <= MAXLEN
    ensures Contains(q, x) && 0 <= x < SPACE
  {
    var n, k := NumberOf(q), MAXLEN - |q|;
    x := Shl(n, k);
    ShlMonotone(n, n + 1, k);
    ShlNonNegative(n, k);
    NumberBelow(q);
    ShlMonotone(n, Pow2(|q|), k);
    SpaceIsPower(|q|);
  }

  lemma {:induction false} NumberBelow(q: Path)
    ensures NumberOf(q) < Pow2(|q|)
  {
    if q != [] { NumberBelow(q[..|q| - 1]); }
  }

  lemma InnerIsProper(lens: seq<byte>, p: Path) returns (t: nat)
    requires Lengths(lens) && Inner(ShapeOf(Book(lens, |lens|)), p)
    ensures t < |lens| && lens[t] > 0 && IsPrefix(p, Word(lens, t)) && |p| < lens[t]
  {
    var book := Book(lens, |lens|);
    var q := if Ext(p, false) in ShapeOf(book) then Ext(p, false) else Ext(p, true);
    ShapeDomain(book, q);
    var i: nat :| i < |book| && IsPrefix(q, book[i].word);
    BookEntry(lens, |lens|, i);
    t := book[i].value;
    assert q[..|p|] == p;
  }

  lemma WordInShape(lens: seq<byte>, s: nat, q: Path)
    requires s < |lens| && lens[s] > 0 && IsPrefix(q, Word(lens, s))
    ensures q in ShapeOf(Book(lens, |lens|))
  {
    var i := BookHas(lens, |lens|, s);
    ShapeDomain(Book(lens, |lens|), q);
    assert IsPrefix(q, Book(lens, |lens|)[i].word);
  }

  lemma ChildPresent(lens: seq<byte>, p: Path, b: bool)
    requires Lengths(lens) && Kraft(lens) == SPACE && Inner(ShapeOf(Book(lens, |lens|)), p)
    ensures Ext(p, b) in ShapeOf(Book(lens, |lens|))
  {
    var t := InnerIsProper(lens, p);
    var q := Ext(p, b);
    var x := PointOf(q);
    var s := CoveredBelow(lens, x, MAXLEN + 1);
    EndInKraft(lens, s);
    WordContains(lens, s, x);
    if |q| <= lens[s] {
      Nested(q, Word(lens, s), x);
      WordInShape(lens, s, q);
    } else {
      Nested(Word(lens, s), q, x);
      BelowProper(lens, s, t, p, b);
    }
  }

  lemma BelowProper(lens: seq<byte>, s: nat, t: nat, p: Path, b: bool)
    requires Lengths(lens) && Kraft(lens) == SPACE && s < |lens| && t < |lens| && lens[s] > 0 && lens[t] > 0
    requires IsPrefix(p, Word(lens, t)) && |p| < lens[t] && lens[s] <= |p|
    ensures !IsPrefix(Word(lens, s), Ext(p, b))
  {
    var n: nat := lens[s];
    assert Ext(p, b)[..n] == p[..n] == Word(lens, t)[..|p|][..n] == Word(lens, t)[..n];
    WordsApart(lens, s, t);
  }

  function Ones(k: nat): Path {
    if k == 0 then [] else Ext(Ones(k - 1), true)
  }

  lemma {:induction false} OnesNumber(k: nat)
    ensures |Ones(k)| == k && NumberOf(Ones(k)) == Pow2(k) - 1
  {
    if k > 0 {
      OnesNumber(k - 1);
      assert Ones(k)[..k - 1] == Ones(k - 1);
    }
  }

  /** The way along the ones of a full tree can only end at a code word that reaches the end of the space. */
  lemma {:induction false} OnesPresent(lens: seq<byte>, k: nat)
    requires Lengths(lens) && Kraft(lens) < SPACE && Book(lens, |lens|) != [] && k <= MAXLEN + 1
    requires Full(ShapeOf(Book(lens, |lens|)))
    ensures Ones(k) in ShapeOf(Book(lens, |lens|))
  {
    ShapeDomain(Book(lens, |lens|), []);
    if k > 0 {
      OnesPresent(lens, k - 1);
      if !Inner(ShapeOf(Book(lens, |lens|)), Ones(k - 1)) { OnesLeaf(lens, k - 1); }
    }
  }

  lemma OnesLeaf(lens: seq<byte>, k: nat)
    requires Lengths(lens) && Book(lens, |lens|) != [] && k <= MAXLEN
    requires Ones(k) in ShapeOf(Book(lens, |lens|)) && !Inner(ShapeOf(Book(lens, |lens|)), Ones(k))
    ensures Kraft(lens) >= SPACE
  {
    var i := LeafIsWord(Book(lens, |lens|), Ones(k));
    BookEntry(lens, |lens|, i);
    var s := Book(lens, |lens|)[i].value;
    OnesNumber(k);
    if Kraft(lens) < SPACE { LastWord(lens, s, k); }
  }

  lemma LastWord(lens: seq<byte>, s: nat, k: nat)
    requires s < |lens| && lens[s] == k && 0 < k <= MAXLEN && Kraft(lens) < SPACE
    ensures NumberOf(Word(lens, s)) != Pow2(k) - 1
  {
    EndInKraft(lens, s);
    NumberFits(lens, s);
    NumberOfCode(CodeNumber(lens, s), k);
    NumberStart(lens, s);
    SpaceIsPower(k);
  }

  /** The tree has every child exactly when the lengths use up all the space. */
  lemma FullExactly(lens: seq<byte>)
    requires Lengths(lens) && Symbols(lens, |lens|) >= 2 && Kraft(lens) <= SPACE
    ensures Full(ShapeOf(Codebook(lens))) <==> Kraft(lens) == SPACE
  {
    BookSize(lens, |lens|);
    var shape := ShapeOf(Book(lens, |lens|));
    if Kraft(lens) == SPACE {
      forall p | p in shape && Inner(shape, p) ensures Ext(p, false) in shape && Ext(p, true) in shape {
        ChildPresent(lens, p, false);
        ChildPresent(lens, p, true);
      }
    } else if Full(shape) {
      OnesPresent(lens, MAXLEN + 1);
      TooDeep(lens);
    }
  }

  lemma TooDeep(lens: seq<byte>)
    requires Lengths(lens)
    ensures Ones(MAXLEN + 1) !in ShapeOf(Book(lens, |lens|))
  {
    var book, q := Book(lens, |lens|), Ones(MAXLEN + 1);
    OnesNumber(MAXLEN + 1);
    ShapeDomain(book, q);
    forall i | 0 <= i < |book| ensures !IsPrefix(q, book[i].word) {
      BookEntry(lens, |lens|, i);
    }
  }

  // --- over-subscribed lengths ----------------------------------------------------------------------------

  lemma {:induction false} CodeOfPower(l: nat, m: nat)
    requires m >= l
    ensures Code(Pow2(m), l) == Code(0, l)
  {
    if l > 0 { CodeOfPower(l - 1, m - 1); }
  }

  lemma {:induction false} ZerosPrefix(k: nat, l: nat)
    requires k <= l
    ensures IsPrefix(Code(0, k), Code(0, l))
  {
    if k < l {
      ZerosPrefix(k, l - 1);
      assert Code(0, l)[..k] == Code(0, l - 1)[..k];
    } else {
      assert Code(0, k)[..k] == Code(0, k);
    }
  }

  /** The first code word and the first that overflows are both all zeros. */
  lemma Overflow(lens: seq<byte>) returns (s: nat, t: nat)
    requires Lengths(lens) && Kraft(lens) > SPACE
    ensures s < |lens| && t < |lens| && s != t && lens[s] > 0 && lens[t] > 0
    ensures IsPrefix(Word(lens, t), Word(lens, s))
  {
    s := CoveredBelow(lens, SPACE, MAXLEN + 1);
    t := CoveredBelow(lens, 0, MAXLEN + 1);
    NumberStart(lens, s);
    NumberStart(lens, t);
    PowerAt(CodeNumber(lens, s), lens[s]);
    ZeroAt(CodeNumber(lens, t), lens[t]);
    if lens[s] < lens[t] { StartOrder(lens, s, t); }
    CodeOfPower(lens[s], lens[s]);
    ZerosPrefix(lens[t], lens[s]);
  }

  lemma PowerAt(n: nat, l: nat)
    requires l <= MAXLEN && Shl(n, MAXLEN - l) <= SPACE < Shl(n + 1, MAXLEN - l)
    ensures n == Pow2(l)
  {
    SpaceIsPower(l);
    if n < Pow2(l) { ShlMonotone(n + 1, Pow2(l), MAXLEN - l); }
    if n > Pow2(l) { ShlMonotone(Pow2(l), n, MAXLEN - l); }
  }

  lemma ZeroAt(n: nat, l: nat)
    requires l <= MAXLEN && Shl(n, MAXLEN - l) <= 0
    ensures n == 0
  {
    ShlNonNegative(n, MAXLEN - l);
  }

  lemma OneLost(lens: seq<byte>, s: nat, t: nat)
    requires Symbols(lens, |lens|) != 1
    requires s < |lens| && t < |lens| && s != t && lens[s] > 0 && lens[t] > 0
    requires IsPrefix(Word(lens, t), Word(lens, s))
    ensures !Finds(lens, s) || !Finds(lens, t)
  {
    var shape := ShapeOf(Book(lens, |lens|));
    if Word(lens, t) != Word(lens, s) {
      var i := BookHas(lens, |lens|, s);
      ProperPrefix(Book(lens, |lens|), Word(lens, t), i);
      ShapeDomain(Book(lens, |lens|), []);
      WalkReads(shape, [], Word(lens, t));
    }
  }

  /** Every symbol is decoded from its own code word if and only if the lengths fit. */
  lemma DecodesExactly(lens: seq<byte>)
    requires Lengths(lens) && Symbols(lens, |lens|) >= 2
    ensures (forall s :: 0 <= s < |lens| && lens[s] > 0 ==> Finds(lens, s)) <==> Kraft(lens) <= SPACE
  {
    if Kraft(lens) <= SPACE {
      forall s | 0 <= s < |lens| && lens[s] > 0 ensures Finds(lens, s) { DecodesSymbol(lens, s, []); }
    } else {
      var s, t := Overflow(lens);
      OneLost(lens, s, t);
    }
  }
}
