/**
  The descriptions of prefix codes that `DecodeHuffman` of Compression/src/Brotli.cpp reads, simple ones
  (section 3.4 of RFC 7932) and complex ones (section 3.5): reading undoes spelling, and what the trees decode.
*/
module HuffmanCodes {
  import opened Words
  import opened PrefixCodes
  import opened CanonicalCodes
  import opened CodeLengths

  datatype Description =
    | Simple(symbols: seq<nat>, select: bool)
    | Complex(skip: nat, ls: seq<nat>, tokens: seq<Token>)

  // --- simple codes ---------------------------------------------------------------------------------------

  /** The bits of a symbol of an alphabet; the size less one is a 64-bit word. */
  function AlphabetBits(size: nat): (n: nat)
    requires size < TWO64
    ensures n <= 64
  {
    var x := if size == 0 then TWO64 - 1 else size - 1;
    Pow2Words();
    BitLengthBelow(x, 64);
    BitLength(x)
  }

  /** The fewest bits that number the symbols of the alphabet. */
  lemma AlphabetBitsExactly(size: nat, n: nat)
    requires 0 < size < TWO64
    ensures AlphabetBits(size) == n <==> size <= Pow2(n) && (n > 0 ==> Pow2(n - 1) < size)
  {
    var b := BitLength(size - 1);
    BitLengthBounds(size - 1);
    if n < b { Pow2Monotone(n, b - 1); }
    if n > b { Pow2Monotone(b, n - 1); }
  }

  /** The lengths of the code words by position: 0; 0, 1; 0, 10, 11; 00, 01, 10, 11; 0, 10, 110, 111. */
  function SimpleLens(count: nat, select: bool): (lens: seq<byte>)
    requires 1 <= count <= 4
    ensures |lens| == count && Lengths(lens) && forall i :: 0 <= i < count ==> lens[i] > 0
  {
    if count == 1 then [1]
    else if count == 2 then [1, 1]
    else if count == 3 then [1, 2, 2]
    else if select then [1, 2, 3, 3]
    else [2, 2, 2, 2]
  }

  /** The numbers of those code words. */
  function SimpleNumber(count: nat, select: bool, i: nat): nat {
    if count <= 2 then i
    else if count == 3 then (if i == 0 then 0 else i + 1)
    else if !select then i
    else if i == 0 then 0 else if i == 1 then 2 else i + 4
  }

  lemma TwoNumbers(i: nat)
    requires i < 2
    ensures CodeNumber([1, 1], i) == i
  {
    var lens: seq<byte> := [1, 1];
    assert Rank(lens, 1, 0) == 0;
    assert Offset(lens, 0) == 0;
  }

  lemma ThreeNumbers(i: nat)
    requires i < 3
    ensures CodeNumber([1, 2, 2], i) == if i == 0 then 0 else i + 1
  {
    var lens: seq<byte> := [1, 2, 2];
    assert Rank(lens, 1, 0) == 0 && Rank(lens, 2, 0) == 0;
    assert Rank(lens, 1, 1) == 1 && Rank(lens, 2, 1) == 0;
    assert Rank(lens, 1, 2) == 1 && Rank(lens, 2, 2) == 1;
    assert Rank(lens, 1, 3) == 1;
    assert Offset(lens, 0) == 0;
    assert Offset(lens, 1) == 0;
    assert Offset(lens, 2) == 2;
  }

  lemma FourNumbers(i: nat)
    requires i < 4
    ensures CodeNumber([2, 2, 2, 2], i) == i
  {
    var lens: seq<byte> := [2, 2, 2, 2];
    assert Rank(lens, 1, 0) == 0 && Rank(lens, 2, 0) == 0;
    assert Rank(lens, 1, 1) == 0 && Rank(lens, 2, 1) == 1;
    assert Rank(lens, 1, 2) == 0 && Rank(lens, 2, 2) == 2;
    assert Rank(lens, 1, 3) == 0 && Rank(lens, 2, 3) == 3;
    assert Rank(lens, 1, 4) == 0;
    assert Offset(lens, 0) == 0;
    assert Offset(lens, 1) == 0;
    assert Offset(lens, 2) == 0;
  }

  lemma SelectRanks(l: nat)
    ensures var lens: seq<byte> := [1, 2, 3, 3];
      && Rank(lens, l, 1) == (if l == 1 then 1 else 0)
      && Rank(lens, l, 2) == (if l == 1 || l == 2 then 1 else 0)
      && Rank(lens, l, 3) == (if 1 <= l <= 3 then 1 else 0)
      && Rank(lens, l, 4) == (if l == 1 || l == 2 then 1 else if l == 3 then 2 else 0)
  {
    var lens: seq<byte> := [1, 2, 3, 3];
    assert Rank(lens, l, 0) == 0;
  }

  lemma SelectNumbers(i: nat)
    requires i < 4
    ensures CodeNumber([1, 2, 3, 3], i) == if i == 0 then 0 else if i == 1 then 2 else i + 4
  {
    var lens: seq<byte> := [1, 2, 3, 3];
    SelectRanks(1);
    SelectRanks(2);
    SelectRanks(3);
    assert Offset(lens, 0) == 0;
    assert Offset(lens, 1) == 0;
    assert Offset(lens, 2) == 2;
    assert Offset(lens, 3) == 6;
  }

  /** The trees of the four cases are those of the canonical codes of their lengths, position by position. */
  lemma SimpleNumbers(count: nat, select: bool, i: nat)
    requires 2 <= count <= 4 && i < count
    ensures CodeNumber(SimpleLens(count, select), i) == SimpleNumber(count, select, i)
  {
    if count == 2 { TwoNumbers(i); }
    else if count == 3 { ThreeNumbers(i); }
    else if select { SelectNumbers(i); }
    else { FourNumbers(i); }
  }

  lemma SimpleSymbols(count: nat, select: bool, n: nat)
    requires 1 <= count <= 4 && n <= count
    ensures Symbols(SimpleLens(count, select), n) == n
  {
    if n > 0 { SimpleSymbols(count, select, n - 1); }
  }

  lemma SimpleUsable(count: nat, select: bool)
    requires 1 <= count <= 4
    ensures Usable(SimpleLens(count, select))
  {
    var lens := SimpleLens(count, select);
    SimpleSymbols(count, select, count);
    WeightValues();
    KraftIsSum(lens);
    if count == 2 {
      KraftStep(lens, 0, 1, 0x4000);
      KraftStep(lens, 1, 1, 0x4000);
    } else if count == 3 {
      KraftStep(lens, 0, 1, 0x4000);
      KraftStep(lens, 1, 2, 0x2000);
      KraftStep(lens, 2, 2, 0x2000);
    } else if count == 4 {
      KraftStep(lens, 0, lens[0], if select then 0x4000 else 0x2000);
      KraftStep(lens, 1, 2, 0x2000);
      KraftStep(lens, 2, lens[2], if select then 0x1000 else 0x2000);
      KraftStep(lens, 3, lens[3], if select then 0x1000 else 0x2000);
    }
  }

  /** The code book of a simple code. */
  function SimpleBook(symbols: seq<nat>, select: bool): seq<Entry>
    requires 1 <= |symbols| <= 4
  {
    var lens := SimpleLens(|symbols|, select);
    seq(|symbols|, i requires 0 <= i < |symbols| => Entry(CodeWord(lens, i), symbols[i]))
  }

  lemma {:induction false} FullBook(lens: seq<byte>, n: nat)
    requires n <= |lens| && forall i :: 0 <= i < n ==> lens[i] > 0
    ensures |Book(lens, n)| == n && forall i :: 0 <= i < n ==> Book(lens, n)[i] == Entry(Word(lens, i), i)
  {
    if n > 0 { FullBook(lens, n - 1); }
  }

  lemma SimpleWords(symbols: seq<nat>, select: bool)
    requires 1 <= |symbols| <= 4
    ensures var lens, book := SimpleLens(|symbols|, select), SimpleBook(symbols, select);
      |Codebook(lens)| == |book| && forall i :: 0 <= i < |book| ==> Codebook(lens)[i].word == book[i].word
  {
    var lens := SimpleLens(|symbols|, select);
    SimpleSymbols(|symbols|, select, |symbols|);
    FullBook(lens, |symbols|);
  }

  lemma SimpleTree(symbols: seq<nat>, select: bool)
    requires 1 <= |symbols| <= 4
    ensures PrefixFree(SimpleBook(symbols, select)) && Full(ShapeOf(SimpleBook(symbols, select)))
  {
    var lens, book := SimpleLens(|symbols|, select), SimpleBook(symbols, select);
    SimpleUsable(|symbols|, select);
    UsableBook(lens);
    UsableFull(lens);
    SimpleWords(symbols, select);
    SameWords(Codebook(lens), book);
  }

  lemma SameWords(a: seq<Entry>, b: seq<Entry>)
    requires |a| == |b| && (forall i :: 0 <= i < |a| ==> a[i].word == b[i].word) && PrefixFree(a) && Full(ShapeOf(a))
    ensures PrefixFree(b) && Full(ShapeOf(b))
  {
    forall i, j | 0 <= i < |b| && 0 <= j < |b| && i != j ensures !IsPrefix(b[i].word, b[j].word) {
      assert !IsPrefix(a[i].word, a[j].word);
    }
    forall p ensures p in ShapeOf(a) <==> p in ShapeOf(b) {
      ShapeDomain(a, p);
      ShapeDomain(b, p);
      SameInBook(a, b, p);
    }
  }

  lemma SameInBook(a: seq<Entry>, b: seq<Entry>, p: Path)
    requires |a| == |b| && forall i :: 0 <= i < |a| ==> a[i].word == b[i].word
    ensures InBook(a, p) <==> InBook(b, p)
  {
    if InBook(a, p) {
      var i :| 0 <= i < |a| && IsPrefix(p, a[i].word);
      assert IsPrefix(p, b[i].word);
    }
    if InBook(b, p) {
      var i :| 0 <= i < |b| && IsPrefix(p, b[i].word);
      assert IsPrefix(p, a[i].word);
    }
  }

  /** The trees of usable lengths have no missing child. */
  lemma UsableFull(lens: seq<byte>)
    requires Usable(lens)
    ensures Full(ShapeOf(Codebook(lens)))
  {
    if Symbols(lens, |lens|) == 1 {
      var shape := ShapeOf(Codebook(lens));
      forall p, b ensures Ext(p, b) !in shape {
        ShapeDomain(Codebook(lens), Ext(p, b));
        assert |Ext(p, b)| > 0;
      }
    } else {
      FullExactly(lens);
    }
  }

  // --- the order of code words (section 3.2 of RFC 7932) --------------------------------------------------

  /** Code words of one length rise with their symbols. */
  ghost predicate CanonicalOrder(book: seq<Entry>) {
    forall i, j :: 0 <= i < |book| && 0 <= j < |book| && |book[i].word| == |book[j].word|
        && book[i].value < book[j].value
      ==> NumberOf(book[i].word) < NumberOf(book[j].word)
  }

  lemma WordNumber(lens: seq<byte>, s: nat)
    requires Lengths(lens) && Kraft(lens) <= SPACE && s < |lens| && lens[s] > 0
    ensures NumberOf(Word(lens, s)) == CodeNumber(lens, s)
  {
    EndInKraft(lens, s);
    NumberFits(lens, s);
    NumberOfCode(CodeNumber(lens, s), lens[s]);
  }

  lemma OrderOfTwo(lens: seq<byte>, s: nat, t: nat)
    requires Lengths(lens) && Kraft(lens) <= SPACE && s < t < |lens| && lens[s] > 0 && lens[s] == lens[t]
    ensures NumberOf(Word(lens, s)) < NumberOf(Word(lens, t))
  {
    WordNumber(lens, s);
    WordNumber(lens, t);
    RankMonotone(lens, lens[s], s + 1, t);
  }

  /** The codes `CreateHuffman` builds are in canonical order. */
  lemma CreatedInOrder(lens: seq<byte>)
    requires Lengths(lens) && Kraft(lens) <= SPACE
    ensures CanonicalOrder(Book(lens, |lens|))
  {
    var book := Book(lens, |lens|);
    forall i, j | 0 <= i < |book| && 0 <= j < |book| && |book[i].word| == |book[j].word|
        && book[i].value < book[j].value
      ensures NumberOf(book[i].word) < NumberOf(book[j].word)
    {
      BookEntry(lens, |lens|, i);
      BookEntry(lens, |lens|, j);
      OrderOfTwo(lens, book[i].value, book[j].value);
    }
  }

  lemma SimpleWordNumber(count: nat, select: bool, i: nat)
    requires 2 <= count <= 4 && i < count
    ensures NumberOf(CodeWord(SimpleLens(count, select), i)) == SimpleNumber(count, select, i)
    ensures |CodeWord(SimpleLens(count, select), i)| == SimpleLens(count, select)[i]
  {
    SimpleUsable(count, select);
    SimpleSymbols(count, select, count);
    SimpleNumbers(count, select, i);
    WordNumber(SimpleLens(count, select), i);
  }

  predicate Rising(symbols: seq<nat>, select: bool)
    requires 1 <= |symbols| <= 4
  {
    var lens := SimpleLens(|symbols|, select);
    forall i, j :: 0 <= i < j < |symbols| && lens[i] == lens[j] ==> symbols[i] <= symbols[j]
  }

  lemma NumbersRise(count: nat, select: bool, i: nat, j: nat)
    requires 2 <= count <= 4 && i < j < count
    ensures SimpleNumber(count, select, i) < SimpleNumber(count, select, j)
  {
  }

  lemma OrderOfPair(symbols: seq<nat>, select: bool, i: nat, j: nat)
    requires 1 <= |symbols| <= 4 && i < j < |symbols|
    ensures var book, lens := SimpleBook(symbols, select), SimpleLens(|symbols|, select);
      && (|book[i].word| == |book[j].word| <==> lens[i] == lens[j])
      && NumberOf(book[i].word) < NumberOf(book[j].word)
  {
    SimpleWordNumber(|symbols|, select, i);
    SimpleWordNumber(|symbols|, select, j);
    NumbersRise(|symbols|, select, i, j);
  }

  /** A simple code is not sorted: it is canonical only if its symbols of equal length come in rising order. */
  lemma SimpleInOrderExactly(symbols: seq<nat>, select: bool)
    requires 1 <= |symbols| <= 4
    ensures CanonicalOrder(SimpleBook(symbols, select)) <==> Rising(symbols, select)
  {
    var book, lens := SimpleBook(symbols, select), SimpleLens(|symbols|, select);
    if Rising(symbols, select) {
      forall i, j | 0 <= i < |book| && 0 <= j < |book| && |book[i].word| == |book[j].word|
          && book[i].value < book[j].value
        ensures NumberOf(book[i].word) < NumberOf(book[j].word)
      {
        if i < j { OrderOfPair(symbols, select, i, j); } else { OrderOfPair(symbols, select, j, i); }
      }
    } else {
      var i: nat, j: nat :| i < j < |symbols| && lens[i] == lens[j] && symbols[i] > symbols[j];
      OrderOfPair(symbols, select, i, j);
      assert book[j].value < book[i].value;
    }
  }

  // --- reading a description ------------------------------------------------------------------------------

  function ReadSymbols(bits: seq<bool>, n: nat, width: nat, seen: seq<nat>): Parsed<seq<nat>>
    decreases n - |seen|
  {
    if |seen| >= n then Parsed(seen, bits)
    else match Field(bits, width)
         case Failed => Failed
         case Parsed(v, rest) => ReadSymbols(rest, n, width, seen + [v])
  }

  function SpellSymbols(symbols: seq<nat>, width: nat, k: nat): seq<bool>
    requires k <= |symbols|
    decreases |symbols| - k
  {
    if k == |symbols| then [] else BitsOf(symbols[k], width) + SpellSymbols(symbols, width, k + 1)
  }

  ghost predicate Narrow(symbols: seq<nat>, width: nat, k: nat) {
    forall j :: k <= j < |symbols| ==> symbols[j] < Pow2(width)
  }

  lemma {:induction false} SymbolsExactly(bits: seq<bool>, n: nat, width: nat, seen: seq<nat>, symbols: seq<nat>,
      rest: seq<bool>)
    requires width <= 64 && |seen| <= n
    ensures ReadSymbols(bits, n, width, seen) == Parsed(symbols, rest) <==>
      |symbols| == n && seen <= symbols && Narrow(symbols, width, |seen|)
      && bits == SpellSymbols(symbols, width, |seen|) + rest
    decreases n - |seen|
  {
    if |seen| < n {
      if ReadSymbols(bits, n, width, seen) == Parsed(symbols, rest) {
        var v, more := Field(bits, width).value, Field(bits, width).rest;
        FieldExactly(bits, width, v, more);
        SymbolsExactly(more, n, width, seen + [v], symbols, rest);
        OneSymbol(width, seen, v, symbols, rest);
      }
      if |symbols| == n && seen <= symbols && Narrow(symbols, width, |seen|)
         && bits == SpellSymbols(symbols, width, |seen|) + rest {
        var v := symbols[|seen|];
        assert seen + [v] <= symbols;
        OneSymbol(width, seen, v, symbols, rest);
        var more := SpellSymbols(symbols, width, |seen| + 1) + rest;
        FieldExactly(bits, width, v, more);
        SymbolsExactly(more, n, width, seen + [v], symbols, rest);
      }
    } else {
      assert [] + rest == rest;
      if |symbols| == n && seen <= symbols { assert symbols == seen; }
    }
  }

  lemma OneSymbol(width: nat, seen: seq<nat>, v: nat, symbols: seq<nat>, rest: seq<bool>)
    requires seen + [v] <= symbols
    ensures seen <= symbols && symbols[|seen|] == v
    ensures SpellSymbols(symbols, width, |seen|) + rest ==
            BitsOf(v, width) + (SpellSymbols(symbols, width, |seen| + 1) + rest)
  {
    assert symbols[|seen|] == (seen + [v])[|seen|];
  }

  function ReadSimple(bits: seq<bool>, width: nat): Parsed<Description> {
    match Field(bits, 2)
    case Failed => Failed
    case Parsed(n, rest) =>
      match ReadSymbols(rest, n + 1, width, [])
      case Failed => Failed
      case Parsed(symbols, rest') =>
        if n != 3 then Parsed(Simple(symbols, false), rest')
        else match Field(rest', 1)
             case Failed => Failed
             case Parsed(b, rest'') => Parsed(Simple(symbols, b == 1), rest'')
  }

  function SpellSimple(symbols: seq<nat>, select: bool, width: nat): seq<bool> {
    BitsOf(if symbols == [] then 0 else |symbols| - 1, 2)
      + (SpellSymbols(symbols, width, 0) + if |symbols| == 4 then [select] else [])
  }

  ghost predicate ValidSimple(symbols: seq<nat>, select: bool, width: nat) {
    1 <= |symbols| <= 4 && Narrow(symbols, width, 0) && (select ==> |symbols| == 4)
  }

  lemma SelectBit(bits: seq<bool>, b: bool, rest: seq<bool>)
    ensures bits == [b] + rest <==>
      Field(bits, 1).Parsed? && (Field(bits, 1).value == 1 <==> b) && Field(bits, 1).rest == rest
  {
    assert Pow2(1) == 2;
    var v := if b then 1 else 0;
    assert BitsOf(v, 1) == [b];
    FieldExactly(bits, 1, v, rest);
    if Field(bits, 1).Parsed? { FieldExactly(bits, 1, Field(bits, 1).value, Field(bits, 1).rest); }
  }

  lemma SpellSimpleParts(symbols: seq<nat>, select: bool, width: nat, rest: seq<bool>)
    requires 1 <= |symbols| <= 4
    ensures SpellSimple(symbols, select, width) + rest ==
      BitsOf(|symbols| - 1, 2) + (SpellSymbols(symbols, width, 0) + ((if |symbols| == 4 then [select] else []) + rest))
  {
  }

  lemma ReadSimpleFinds(symbols: seq<nat>, select: bool, width: nat, rest: seq<bool>)
    requires width <= 64 && ValidSimple(symbols, select, width)
    ensures ReadSimple(SpellSimple(symbols, select, width) + rest, width) == Parsed(Simple(symbols, select), rest)
  {
    var bits, n := SpellSimple(symbols, select, width) + rest, |symbols|;
    var tail := (if n == 4 then [select] else []) + rest;
    var more := SpellSymbols(symbols, width, 0) + tail;
    assert Pow2(2) == 4;
    SpellSimpleParts(symbols, select, width, rest);
    FieldExactly(bits, 2, n - 1, more);
    SymbolsExactly(more, n, width, [], symbols, tail);
    if n == 4 { SelectBit(tail, select, rest); } else { assert tail == rest; }
  }

  lemma ReadSimpleReads(bits: seq<bool>, width: nat, d: Description, rest: seq<bool>)
    requires width <= 64 && ReadSimple(bits, width) == Parsed(d, rest)
    ensures d.Simple? && ValidSimple(d.symbols, d.select, width)
    ensures bits == SpellSimple(d.symbols, d.select, width) + rest
  {
    var n, more := Field(bits, 2).value, Field(bits, 2).rest;
    assert Pow2(2) == 4;
    FieldExactly(bits, 2, n, more);
    var symbols, tail := ReadSymbols(more, n + 1, width, []).value, ReadSymbols(more, n + 1, width, []).rest;
    SymbolsExactly(more, n + 1, width, [], symbols, tail);
    if n == 3 { SelectBit(tail, d.select, rest); } else { assert tail == [] + rest; }
    SpellSimpleParts(symbols, d.select, width, rest);
  }

  lemma LengthsFit(skip: nat, ls: seq<nat>)
    requires skip <= 18 && LengthsFrom(skip, ls, 0)
    ensures skip + |ls| <= 18 && forall j :: 0 <= j < |ls| ==> ls[j] < 6
    ensures Usable(Assigned(skip, ls))
  {
    if ls != [] { assert !Enough(skip, ls[..|ls| - 1]); }
    AcceptedExactly(skip, ls);
  }

  function ReadComplex(bits: seq<bool>, skip: nat, size: nat): Parsed<Description>
    requires skip <= 18
  {
    match LengthCode(bits, skip, [])
    case Failed => Failed
    case Parsed(ls, rest) =>
      LengthCodeReads(bits, skip, [], ls, rest);
      LengthsFit(skip, ls);
      match LengthTokens(rest, Assigned(skip, ls), size, [])
      case Failed => Failed
      case Parsed(ts, rest') => Parsed(Complex(skip, ls, ts), rest')
  }

  ghost predicate ValidComplex(skip: nat, ls: seq<nat>, ts: seq<Token>, size: nat)
    requires skip <= 18
  {
    && LengthsFrom(skip, ls, 0)
    && (LengthsFit(skip, ls); TokensFrom(Assigned(skip, ls), size, ts, 0))
  }

  ghost function SpellComplex(skip: nat, ls: seq<nat>, ts: seq<Token>, size: nat): seq<bool>
    requires skip <= 18 && ValidComplex(skip, ls, ts, size)
  {
    LengthsFit(skip, ls);
    SpellLengths(ls, 0) + SpellTokens(Assigned(skip, ls), ts, 0)
  }

  lemma ReadComplexFinds(skip: nat, ls: seq<nat>, ts: seq<Token>, size: nat, rest: seq<bool>)
    requires skip <= 18 && ValidComplex(skip, ls, ts, size)
    ensures ReadComplex(SpellComplex(skip, ls, ts, size) + rest, skip, size) == Parsed(Complex(skip, ls, ts), rest)
  {
    LengthsFit(skip, ls);
    var more := SpellTokens(Assigned(skip, ls), ts, 0) + rest;
    assert SpellComplex(skip, ls, ts, size) + rest == SpellLengths(ls, 0) + more;
    LengthCodeFinds(skip, ls, 0, more);
    TokensFinds(Assigned(skip, ls), size, ts, 0, rest);
    assert ls[..0] == [] && ts[..0] == [];
  }

  lemma ReadComplexReads(bits: seq<bool>, skip: nat, size: nat, d: Description, rest: seq<bool>)
    requires skip <= 18 && ReadComplex(bits, skip, size) == Parsed(d, rest)
    ensures d.Complex? && d.skip == skip && ValidComplex(skip, d.ls, d.tokens, size)
    ensures bits == SpellComplex(skip, d.ls, d.tokens, size) + rest
  {
    var ls, more := LengthCode(bits, skip, []).value, LengthCode(bits, skip, []).rest;
    LengthCodeReads(bits, skip, [], ls, more);
    LengthsFit(skip, ls);
    TokensReads(more, Assigned(skip, ls), size, [], d.tokens, rest);
  }

  /** `DecodeHuffman` as a function of the bits: the kind, then a simple or a complex description. */
  function Describe(bits: seq<bool>, size: nat): Parsed<Description>
    requires size < TWO64
  {
    match Field(bits, 2)
    case Failed => Failed
    case Parsed(skip, rest) =>
      assert Pow2(2) == 4;
      FieldExactly(bits, 2, skip, rest);
      if skip == 1 then ReadSimple(rest, AlphabetBits(size)) else ReadComplex(rest, skip, size)
  }

  ghost predicate Valid(d: Description, size: nat)
    requires size < TWO64
  {
    match d
    case Simple(symbols, select) => ValidSimple(symbols, select, AlphabetBits(size))
    case Complex(skip, ls, ts) => skip in {0, 2, 3} && ValidComplex(skip, ls, ts, size)
  }

  ghost function Spell(d: Description, size: nat): seq<bool>
    requires size < TWO64 && Valid(d, size)
  {
    match d
    case Simple(symbols, select) => BitsOf(1, 2) + SpellSimple(symbols, select, AlphabetBits(size))
    case Complex(skip, ls, ts) => BitsOf(skip, 2) + SpellComplex(skip, ls, ts, size)
  }

  lemma DescribeAfterKind(bits: seq<bool>, size: nat, kind: nat, more: seq<bool>)
    requires size < TWO64 && kind < 4 && bits == BitsOf(kind, 2) + more
    ensures Describe(bits, size) ==
            if kind == 1 then ReadSimple(more, AlphabetBits(size)) else ReadComplex(more, kind, size)
  {
    assert Pow2(2) == 4;
    FieldExactly(bits, 2, kind, more);
  }

  lemma DescribeFinds(d: Description, size: nat, rest: seq<bool>)
    requires size < TWO64 && Valid(d, size)
    ensures Describe(Spell(d, size) + rest, size) == Parsed(d, rest)
  {
    match d
    case Simple(symbols, select) =>
      var tail := SpellSimple(symbols, select, AlphabetBits(size));
      Regroup(BitsOf(1, 2), tail, rest);
      DescribeAfterKind(Spell(d, size) + rest, size, 1, tail + rest);
      ReadSimpleFinds(symbols, select, AlphabetBits(size), rest);
    case Complex(skip, ls, ts) =>
      var tail := SpellComplex(skip, ls, ts, size);
      Regroup(BitsOf(skip, 2), tail, rest);
      DescribeAfterKind(Spell(d, size) + rest, size, skip, tail + rest);
      ReadComplexFinds(skip, ls, ts, size, rest);
  }

  lemma DescribeReads(bits: seq<bool>, size: nat, d: Description, rest: seq<bool>)
    requires size < TWO64 && Describe(bits, size) == Parsed(d, rest)
    ensures Valid(d, size) && bits == Spell(d, size) + rest
  {
    var skip, more := Field(bits, 2).value, Field(bits, 2).rest;
    assert Pow2(2) == 4;
    FieldExactly(bits, 2, skip, more);
    if skip == 1 {
      ReadSimpleReads(more, AlphabetBits(size), d, rest);
      Regroup(BitsOf(skip, 2), SpellSimple(d.symbols, d.select, AlphabetBits(size)), rest);
    } else {
      ReadComplexReads(more, skip, size, d, rest);
      Regroup(BitsOf(skip, 2), SpellComplex(skip, d.ls, d.tokens, size), rest);
    }
  }

  lemma Regroup(a: seq<bool>, b: seq<bool>, c: seq<bool>)
    ensures (a + b) + c == a + (b + c)
  {
  }

  /** A description is read from its spelling and from nothing else, and what follows is left unread. */
  lemma DescribeExactly(bits: seq<bool>, size: nat, d: Description, rest: seq<bool>)
    requires size < TWO64
    ensures Describe(bits, size) == Parsed(d, rest) <==> Valid(d, size) && bits == Spell(d, size) + rest
  {
    if Describe(bits, size) == Parsed(d, rest) { DescribeReads(bits, size, d, rest); }
    if Valid(d, size) && bits == Spell(d, size) + rest { DescribeFinds(d, size, rest); }
  }

  // --- the trees of the descriptions ----------------------------------------------------------------------

  ghost function BookOf(d: Description, size: nat): seq<Entry>
    requires size < TWO64 && Valid(d, size)
  {
    match d
    case Simple(symbols, select) => SimpleBook(symbols, select)
    case Complex(_, _, ts) => Codebook(FinalLengths(size, ts))
  }

  lemma {:induction false} KraftBySymbols(lens: seq<byte>, n: nat)
    requires Lengths(lens) && n <= |lens|
    ensures KraftSum(lens, n) <= 0x4000 * Symbols(lens, n)
  {
    if n > 0 {
      KraftBySymbols(lens, n - 1);
      WeightRange(lens[n - 1]);
    }
  }

  /** When the second loop ends with `space == 0`, the tree is full and decodes every symbol that has a length. */
  lemma SpentDecodes(size: nat, ts: seq<Token>)
    requires |Expand(ts)| <= size < 0x4_0000 && Left(ts) == 0
    ensures Usable(FinalLengths(size, ts)) && Full(ShapeOf(Codebook(FinalLengths(size, ts))))
    ensures forall s :: 0 <= s < size && FinalLengths(size, ts)[s] > 0 ==> Finds(FinalLengths(size, ts), s)
  {
    var lens := FinalLengths(size, ts);
    FinalKraft(size, ts);
    KraftIsSum(lens);
    KraftBySymbols(lens, size);
    UsableFull(lens);
    DecodesExactly(lens);
  }

  /** When it ends because all lengths are there, the tree has a missing child or loses a symbol. */
  lemma UnspentFails(size: nat, ts: seq<Token>)
    requires |Expand(ts)| <= size < 0x4_0000 && Left(ts) != 0
    requires Symbols(FinalLengths(size, ts), size) >= 2
    ensures !Full(ShapeOf(Codebook(FinalLengths(size, ts))))
         || exists s :: 0 <= s < size && FinalLengths(size, ts)[s] > 0 && !Finds(FinalLengths(size, ts), s)
  {
    var lens := FinalLengths(size, ts);
    FinalKraft(size, ts);
    DecodesExactly(lens);
    if Kraft(lens) <= SPACE { FullExactly(lens); }
  }

  /** For two symbols or more: the tree is full and decodes every symbol if and only if `space` ends at zero. */
  lemma SpentExactly(size: nat, ts: seq<Token>)
    requires |Expand(ts)| <= size < 0x4_0000 && Symbols(FinalLengths(size, ts), size) >= 2
    ensures Left(ts) == 0 <==>
      Full(ShapeOf(Codebook(FinalLengths(size, ts))))
      && forall s :: 0 <= s < size && FinalLengths(size, ts)[s] > 0 ==> Finds(FinalLengths(size, ts), s)
  {
    if Left(ts) == 0 { SpentDecodes(size, ts); } else { UnspentFails(size, ts); }
  }

  /** A simple tree reads each of its code words as the symbol in that place. */
  lemma SimpleExactly(symbols: seq<nat>, select: bool, bits: seq<bool>, v: nat, rest: seq<bool>)
    requires 1 <= |symbols| <= 4
    ensures Symbol(SimpleBook(symbols, select), bits) == Parsed(v, rest) <==>
      exists i :: 0 <= i < |symbols| && symbols[i] == v && bits == CodeWord(SimpleLens(|symbols|, select), i) + rest
  {
    var book, lens := SimpleBook(symbols, select), SimpleLens(|symbols|, select);
    SimpleTree(symbols, select);
    if Symbol(book, bits) == Parsed(v, rest) {
      var i := SymbolReads(book, bits);
      assert symbols[i] == v && bits == CodeWord(lens, i) + rest;
    }
    if i :| 0 <= i < |symbols| && symbols[i] == v && bits == CodeWord(lens, i) + rest {
      SymbolFinds(book, i, rest);
    }
  }
}