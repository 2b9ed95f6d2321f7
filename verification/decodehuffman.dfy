/**
  `DecodeHuffman` of Compression/src/Brotli.cpp as it runs, against the reading functions of HuffmanCodes.
  `ok == false` stands for the program stopping on malformed input.
*/
module HuffmanDecoder {
  import opened Words
  import opened BitStreams
  import opened PrefixCodes
  import opened CanonicalCodes
  import opened HuffmanTrees
  import opened CodeLengths
  import opened HuffmanCodes

  /** A node with all the nodes below it, which form the tree of `book`. */
  ghost predicate IsTree(root: Huffman, at: map<Path, Huffman>, book: seq<Entry>)
    reads at.Values
  {
    Tree(at) && at[[]] == root && ShapeAt(at) == ShapeOf(book)
  }

  method DecodeSymbol(root: Huffman, ghost at: map<Path, Huffman>, ghost book: seq<Entry>, reader: NibbleReader)
    returns (ok: bool, value: nat)
    requires IsTree(root, at, book) && reader.Valid()
    modifies reader`position
    ensures reader.Valid()
    ensures ok <==> Symbol(book, old(reader.Unread())).Parsed?
    ensures ok ==> Symbol(book, old(reader.Unread())) == Parsed(value, reader.Unread())
  {
    ghost var bits, start := reader.Unread(), reader.position;
    ok, value := root.Decode(reader, at, []);
    SymbolOf(book, bits);
    if ok { RestDrop(reader.stream, start, reader.position - start); }
  }

  lemma SymbolOf(book: seq<Entry>, bits: seq<bool>)
    ensures var w := Walk(ShapeOf(book), [], bits);
      && (Symbol(book, bits).Parsed? <==> w.Stop?)
      && (w.Stop? ==>
        && w.path in ShapeOf(book) && |w.path| <= |bits|
        && Symbol(book, bits) == Parsed(ShapeOf(book)[w.path], bits[|w.path|..]))
  {
    ShapeDomain(book, []);
    WalkReads(ShapeOf(book), [], bits);
  }

  method ReadField(reader: NibbleReader, n: nat) returns (ok: bool, value: nat)
    requires reader.Valid()
    modifies reader`position
    ensures reader.Valid()
    ensures ok <==> Field(old(reader.Unread()), n).Parsed?
    ensures ok ==> Field(old(reader.Unread()), n) == Parsed(value, reader.Unread())
  {
    TakeIsNumber(reader.Unread(), n);
    ok, value := reader.Read(n);
  }

  /** A tree with one path for every entry of a list of code words. */
  method Plant(numbers: seq<nat>, lengths: seq<nat>, values: seq<nat>, ghost book: seq<Entry>)
    returns (root: Huffman, ghost at: map<Path, Huffman>)
    requires |numbers| == |lengths| == |values| == |book|
    requires forall i :: 0 <= i < |book| ==> book[i] == Entry(Code(numbers[i], lengths[i]), values[i])
    ensures IsTree(root, at, book) && fresh(at.Values)
  {
    root := new Huffman(0);
    at := map[[] := root];
    for i := 0 to |numbers|
      invariant Tree(at) && at[[]] == root && fresh(at.Values)
      invariant ShapeAt(at) == ShapeOf(book[..i])
    {
      assert book[..i + 1][..i] == book[..i];
      at := InsertWord(root, at, numbers[i], lengths[i], values[i]);
    }
    assert book[..|book|] == book;
  }

  lemma FixedBook()
    ensures Codebook(FIXED) == [Entry(Code(0, 2), 0), Entry(Code(14, 4), 1), Entry(Code(6, 3), 2),
                                Entry(Code(1, 2), 3), Entry(Code(2, 2), 4), Entry(Code(15, 4), 5)]
  {
    FixedNumbers();
    FixedUsable();
    assert Symbols(FIXED, 2) == 2;
    assert Symbols(FIXED, 4) == 4;
    assert Symbols(FIXED, 6) == 6;
    FullBook(FIXED, 6);
  }

  /** The static tree `symbols`. */
  method FixedTree() returns (root: Huffman, ghost at: map<Path, Huffman>)
    ensures IsTree(root, at, Codebook(FIXED)) && fresh(at.Values)
  {
    FixedBook();
    root, at := Plant([0, 14, 6, 1, 2, 15], [2, 4, 3, 2, 2, 4], [0, 1, 2, 3, 4, 5], Codebook(FIXED));
  }

  // --- the code of the code lengths -----------------------------------------------------------------------

  lemma UnitsFit(skip: nat, ls: seq<nat>)
    requires skip + |ls| <= 18 && forall j :: 0 <= j < |ls| ==> ls[j] < 6
    ensures 0 <= UnitSum(ls) <= 288
    ensures (32 - UnitSum(ls)) % TWO32 == 0 <==> UnitSum(ls) == 32
  {
    UnitsBound(ls);
  }

  lemma {:induction false} UnitsBound(ls: seq<nat>)
    requires forall j :: 0 <= j < |ls| ==> ls[j] < 6
    ensures 0 <= UnitSum(ls) <= 16 * |ls|
  {
    if ls != [] {
      UnitsBound(ls[..|ls| - 1]);
      UnitRange(ls[|ls| - 1]);
    }
  }

  lemma UnitRange(l: nat)
    requires l < 6
    ensures 0 <= Units(l) <= 16
  {
    WeightValues();
  }

  /** Subtraction in 32 bits. */
  lemma WrapSub(s: nat, a: int, b: int, c: int)
    requires s == a % TWO32 && c == a - b
    ensures (s - b) % TWO32 == c % TWO32
  {
    ModShift(s - b, a / TWO32);
    assert c == s - b + TWO32 * (a / TWO32);
  }

  lemma ModShift(x: int, q: int)
    ensures (x + TWO32 * q) % TWO32 == x % TWO32
  {
  }

  lemma SnocLengths(skip: nat, ls: seq<nat>, l: nat)
    requires skip + |ls| < 18 && l < 6 && forall j :: 0 <= j < |ls| ==> ls[j] < 6
    ensures forall j :: 0 <= j < |ls + [l]| ==> (ls + [l])[j] < 6
    ensures Assigned(skip, ls + [l]) == Assigned(skip, ls)[OrderOf(skip + |ls|) := l]
    ensures UnitSum(ls + [l]) == UnitSum(ls) + Units(l)
    ensures NonZero(ls + [l]) == NonZero(ls) + if l != 0 then 1 else 0
  {
    assert (ls + [l])[..|ls|] == ls;
  }

  /** The variables of the first loop after the lengths `ls` have been read. */
  ghost predicate FirstState(bits: seq<bool>, unread: seq<bool>, skip: nat, ls: seq<nat>,
                             i: nat, symbolLength: seq<byte>, space: nat, nsym: nat)
  {
    && i == skip + |ls| <= 18 && (forall j :: 0 <= j < |ls| ==> ls[j] < 6)
    && LengthCode(bits, skip, []) == LengthCode(unread, skip, ls)
    && symbolLength == Assigned(skip, ls)
    && space == (32 - UnitSum(ls)) % TWO32 && nsym == NonZero(ls)
  }

  lemma FirstSpace(skip: nat, ls: seq<nat>, l: nat, space: nat)
    requires space == (32 - UnitSum(ls)) % TWO32 && UnitSum(ls + [l]) == UnitSum(ls) + Units(l)
    ensures (if l != 0 then (space - Shr(32, l)) % TWO32 else space) == (32 - UnitSum(ls + [l])) % TWO32
  {
    WrapSub(space, 32 - UnitSum(ls), Units(l), 32 - UnitSum(ls + [l]));
  }

  lemma FirstRead(unread: seq<bool>, unread': seq<bool>, skip: nat, ls: seq<nat>, space: nat, l: nat)
    requires skip + |ls| < 18 && (forall j :: 0 <= j < |ls| ==> ls[j] < 6)
    requires space == (32 - UnitSum(ls)) % TWO32 && space != 0
    requires Symbol(Codebook(FIXED), unread) == Parsed(l, unread')
    ensures l < 6 && LengthCode(unread, skip, ls) == LengthCode(unread', skip, ls + [l])
  {
    UnitsFit(skip, ls);
    FixedSymbol(unread, l, unread');
    LengthCodeStep(unread, skip, ls, l, unread');
  }

  lemma FirstStep(bits: seq<bool>, unread: seq<bool>, unread': seq<bool>, skip: nat, ls: seq<nat>,
                  i: nat, symbolLength: seq<byte>, space: nat, nsym: nat, l: nat)
    requires FirstState(bits, unread, skip, ls, i, symbolLength, space, nsym) && i < 18 && space != 0
    requires Symbol(Codebook(FIXED), unread) == Parsed(l, unread')
    ensures l < 6
    ensures FirstState(bits, unread', skip, ls + [l], i + 1, symbolLength[OrderOf(i) := l],
                       if l != 0 then (space - Shr(32, l)) % TWO32 else space, if l != 0 then nsym + 1 else nsym)
  {
    FirstRead(unread, unread', skip, ls, space, l);
    SnocLengths(skip, ls, l);
    FirstSpace(skip, ls, l, space);
  }

  lemma FirstStuck(bits: seq<bool>, unread: seq<bool>, skip: nat, ls: seq<nat>,
                   i: nat, symbolLength: seq<byte>, space: nat, nsym: nat)
    requires FirstState(bits, unread, skip, ls, i, symbolLength, space, nsym) && i < 18 && space != 0
    requires Symbol(Codebook(FIXED), unread) == Failed
    ensures LengthCode(bits, skip, []) == Failed
  {
    UnitsFit(skip, ls);
  }

  lemma FirstEnd(bits: seq<bool>, unread: seq<bool>, skip: nat, ls: seq<nat>,
                 i: nat, symbolLength: seq<byte>, space: nat, nsym: nat)
    requires FirstState(bits, unread, skip, ls, i, symbolLength, space, nsym) && (i == 18 || space == 0)
    ensures LengthCode(bits, skip, []) == if space != 0 && nsym != 1 then Failed else Parsed(ls, unread)
  {
    UnitsFit(skip, ls);
  }

  /** One turn of the first loop: a length is read and stored. */
  method OneLength(reader: NibbleReader, symbols: Huffman, ghost at: map<Path, Huffman>, ghost bits: seq<bool>,
                   skip: nat, ghost ls: seq<nat>, i: nat, symbolLength0: seq<byte>, space0: nat, nsym0: nat)
    returns (ok: bool, ghost ls': seq<nat>, symbolLength: seq<byte>, space: nat, nsym: nat)
    requires reader.Valid() && IsTree(symbols, at, Codebook(FIXED))
    requires FirstState(bits, reader.Unread(), skip, ls, i, symbolLength0, space0, nsym0) && i < 18 && space0 != 0
    modifies reader`position
    ensures reader.Valid()
    ensures !ok ==> LengthCode(bits, skip, []) == Failed
    ensures ok ==> FirstState(bits, reader.Unread(), skip, ls', i + 1, symbolLength, space, nsym)
  {
    ghost var before := reader.Unread();
    var symlen;
    ls', symbolLength, space, nsym := ls, symbolLength0, space0, nsym0;
    ok, symlen := DecodeSymbol(symbols, at, Codebook(FIXED), reader);
    if !ok {
      FirstStuck(bits, before, skip, ls, i, symbolLength, space, nsym);
      return;
    }
    FirstStep(bits, before, reader.Unread(), skip, ls, i, symbolLength, space, nsym, symlen);
    symbolLength := symbolLength[OrderOf(i) := symlen];
    space := if symlen != 0 then (space - Shr(32, symlen)) % TWO32 else space;
    nsym := if symlen != 0 then nsym + 1 else nsym;
    ls' := ls + [symlen];
  }

  lemma FirstStart(bits: seq<bool>, skip: nat)
    requires skip <= 18
    ensures FirstState(bits, bits, skip, [], skip, seq(18, _ => 0), 32, 0)
  {
  }

  /** The first loop and the check after it. */
  method ReadLengthCode(reader: NibbleReader, skip: nat) returns (ok: bool, symbolLength: seq<byte>, ghost ls: seq<nat>)
    requires reader.Valid() && skip <= 18
    modifies reader`position
    ensures reader.Valid()
    ensures ok <==> LengthCode(old(reader.Unread()), skip, []).Parsed?
    ensures ok ==>
      && LengthCode(old(reader.Unread()), skip, []) == Parsed(ls, reader.Unread())
      && skip + |ls| <= 18 && (forall j :: 0 <= j < |ls| ==> ls[j] < 6)
      && symbolLength == Assigned(skip, ls)
    ensures ok ==>
      && symbolLength[0] == InPlace(skip, ls, 4) && symbolLength[5] == InPlace(skip, ls, 5)
      && symbolLength[6] == InPlace(skip, ls, 7)
      && symbolLength[16] == InPlace(skip, ls, 8) && symbolLength[17] == InPlace(skip, ls, 6)
      && (forall s :: 1 <= s <= 4 ==> symbolLength[s] == InPlace(skip, ls, s - 1))
      && (forall s :: 7 <= s <= 15 ==> symbolLength[s] == InPlace(skip, ls, s + 2))
  {
    ghost var bits := reader.Unread();
    var symbols; ghost var at;
    symbols, at := FixedTree();
    symbolLength := seq(18, _ => 0);
    var i: nat, space: nat, nsym: nat := skip, 32, 0;
    ls := [];
    FirstStart(bits, skip);
    while i < 18 && space != 0
      invariant reader.Valid() && IsTree(symbols, at, Codebook(FIXED))
      invariant FirstState(bits, reader.Unread(), skip, ls, i, symbolLength, space, nsym)
      decreases 18 - i
    {
      ok, ls, symbolLength, space, nsym := OneLength(reader, symbols, at, bits, skip, ls, i, symbolLength, space, nsym);
      if !ok {
        return;
      }
      i := i + 1;
    }
    FirstEnd(bits, reader.Unread(), skip, ls, i, symbolLength, space, nsym);
    ok := space == 0 || nsym == 1;
    if ok { AssignedInOrder(skip, ls); }
  }

  // --- the code lengths -----------------------------------------------------------------------------------

  /** `Memory::fill` */
  function Fill(cells: seq<byte>, i: nat, v: byte, n: nat): (out: seq<byte>)
    requires i + n <= |cells|
    ensures |out| == |cells|
  {
    cells[..i] + Copies(v, n) + cells[i + n..]
  }

  lemma FinalFill(size: nat, ts: seq<Token>, ts': seq<Token>, v: byte, n: nat)
    requires |Expand(ts')| <= size && Expand(ts') == Expand(ts) + Copies(v, n)
    ensures FinalLengths(size, ts') == Fill(FinalLengths(size, ts), |Expand(ts)|, v, n)
  {
  }

  function Cost(v: nat, n: nat): int
    requires v <= MAXLEN
  {
    if v == 0 then 0 else Shl(n, MAXLEN - v)
  }

  lemma UsedRun(ts: seq<Token>, ts': seq<Token>, v: byte, n: nat)
    requires v <= MAXLEN && Expand(ts') == Expand(ts) + Copies(v, n)
    ensures Used(ts') == Used(ts) + Cost(v, n)
  {
    KraftSumRun(Expand(ts), v, n);
    assert |Expand(ts')| == |Expand(ts)| + n;
  }

  lemma UsedStep(ts: seq<Token>, ts': seq<Token>, v: byte, n: nat)
    requires v <= MAXLEN && Expand(ts') == Expand(ts) + Copies(v, n)
    ensures Left(ts') == (Left(ts) - Cost(v, n)) % TWO32
  {
    UsedRun(ts, ts', v, n);
    WrapSub(Left(ts), SPACE - Used(ts), Cost(v, n), SPACE - Used(ts'));
  }

  /** The variables of the second loop. */
  datatype Loop = Loop(i: nat, codeLength: seq<byte>, space: nat, repeat: nat, prevclen: nat, prevrepl: nat)

  /** What they are after the tokens `ts` have been stored. */
  ghost predicate Stored(size: nat, ts: seq<Token>, v: Loop) {
    && |Expand(ts)| == v.i <= size && AllWellFormed(ts)
    && v.codeLength == FinalLengths(size, ts) && v.space == Left(ts)
    && v.repeat == Repeat(ts) && v.prevclen == Prev(ts) && Repeats(ts, v)
  }

  /** What was repeated last. */
  ghost predicate Repeats(ts: seq<Token>, v: Loop) {
    && (ts != [] && ts[|ts| - 1].Again? ==> v.prevrepl == v.prevclen)
    && (ts != [] && ts[|ts| - 1].Zeros? ==> v.prevrepl == 0)
  }

  /** What is left to read gives the same result as everything did at the start. */
  ghost predicate SecondState(bits: seq<bool>, unread: seq<bool>, lens: seq<byte>, size: nat, ts: seq<Token>, v: Loop) {
    && Stored(size, ts, v)
    && LengthTokens(bits, lens, size, []) == LengthTokens(unread, lens, size, ts)
  }

  lemma SecondStuck(unread: seq<bool>, lens: seq<byte>, size: nat, ts: seq<Token>)
    requires |Expand(ts)| < size && Left(ts) != 0 && NextToken(lens, unread) == Failed
    ensures LengthTokens(unread, lens, size, ts) == Failed
  {
  }

  lemma SecondStep(unread: seq<bool>, lens: seq<byte>, size: nat, ts: seq<Token>, t: Token, unread': seq<bool>)
    requires |Expand(ts)| < size && Left(ts) != 0 && NextToken(lens, unread) == Parsed(t, unread')
    ensures LengthTokens(unread, lens, size, ts) ==
      if |Expand(ts + [t])| > size then Failed else LengthTokens(unread', lens, size, ts + [t])
  {
    SnocToken(ts, t);
  }

  lemma SnocWellFormed(ts: seq<Token>, t: Token)
    requires AllWellFormed(ts) && WellFormed(t)
    ensures AllWellFormed(ts + [t]) && (ts + [t])[..|ts|] == ts
  {
    assert (ts + [t])[..|ts|] == ts;
  }

  lemma LiteralExpands(ts: seq<Token>, c: byte)
    requires c < 16
    ensures var ts' := ts + [Literal(c)];
      Expand(ts') == Expand(ts) + Copies(c, 1) && Repeat(ts') == 0 && Prev(ts') == if c != 0 then c as int else Prev(ts)
  {
    assert (ts + [Literal(c)])[..|ts|] == ts;
    assert Copies(c, 1) == [c];
  }

  lemma FillOne(cells: seq<byte>, i: nat, v: byte)
    requires i < |cells|
    ensures Fill(cells, i, v, 1) == cells[i := v]
  {
  }

  lemma LiteralCells(size: nat, ts: seq<Token>, ts': seq<Token>, c: byte, i: nat)
    requires c < 16 && i == |Expand(ts)| < size && Expand(ts') == Expand(ts) + Copies(c, 1)
    ensures |Expand(ts')| == i + 1 && FinalLengths(size, ts') == FinalLengths(size, ts)[i := c]
  {
    FinalFill(size, ts, ts', c, 1);
    FillOne(FinalLengths(size, ts), i, c);
  }

  lemma LiteralStep(size: nat, ts: seq<Token>, v: Loop, c: byte)
    requires Stored(size, ts, v) && v.i < size && c < 16
    ensures Stored(size, ts + [Literal(c)],
                   Loop(v.i + 1, v.codeLength[v.i := c], (v.space - Cost(c, 1)) % TWO32,
                        0, if c != 0 then c else v.prevclen, v.prevrepl))
  {
    var ts' := ts + [Literal(c)];
    SnocWellFormed(ts, Literal(c));
    LiteralExpands(ts, c);
    LiteralCells(size, ts, ts', c, v.i);
    UsedStep(ts, ts', c, 1);
    assert ts'[|ts'| - 1] == Literal(c);
  }

  /** The token with code 16 or 17. */
  function RepeatToken(code: nat, e: nat): Token {
    if code == 16 then Again(e) else Zeros(e)
  }

  lemma RepeatCounts(ts: seq<Token>, v: Loop, code: nat, e: nat, repclen: nat, base: nat, count: nat)
    requires AllWellFormed(ts) && (code == 16 || code == 17)
    requires v.repeat == Repeat(ts) && v.prevclen == Prev(ts) && Repeats(ts, v)
    requires repclen == if code == 16 then v.prevclen else 0
    requires base == if v.prevrepl == repclen then v.repeat else 0
    requires count == (if base != 0 then Shl(base - 2, code - 14) else base) + 3 + e
    ensures var ts' := ts + [RepeatToken(code, e)];
      && count == Repeat(ts') && base <= count && count - base == Delta(ts')
      && repclen == Run(ts') && Prev(ts') == v.prevclen
  {
    PrevRange(ts);
    assert (ts + [RepeatToken(code, e)])[..|ts|] == ts;
    ShiftTwoThree(base - 2);
  }

  lemma ShiftTwoThree(x: int)
    ensures Shl(x, 2) == 4 * x && Shl(x, 3) == 8 * x
  {
  }

  lemma RepeatStep(size: nat, ts: seq<Token>, v: Loop, code: nat, e: nat, repclen: byte, count: nat, delta: nat)
    requires Stored(size, ts, v) && v.i < size
    requires (code == 16 || code == 17) && WellFormed(RepeatToken(code, e))
    requires var ts' := ts + [RepeatToken(code, e)];
      count == Repeat(ts') && delta == Delta(ts') && repclen == Run(ts') && v.prevclen == Prev(ts')
    requires repclen == if code == 16 then v.prevclen else 0
    ensures delta >= 3 && |Expand(ts + [RepeatToken(code, e)])| == v.i + delta
    ensures v.i + delta <= size ==>
      Stored(size, ts + [RepeatToken(code, e)],
             Loop(v.i + delta, Fill(v.codeLength, v.i, repclen, delta), (v.space - Cost(repclen, delta)) % TWO32,
                  count, v.prevclen, repclen))
  {
    var t := RepeatToken(code, e);
    SnocWellFormed(ts, t);
    ExpandStep(ts + [t]);
    if v.i + delta <= size {
      FinalFill(size, ts, ts + [t], repclen, delta);
      UsedStep(ts, ts + [t], repclen, delta);
    }
  }

  lemma CodeBelow(lens: seq<byte>, bits: seq<bool>, code: nat, rest: seq<bool>)
    requires Usable(lens) && |lens| == 18 && Symbol(Codebook(lens), bits) == Parsed(code, rest)
    ensures code < 18
  {
    SymbolExactly(lens, bits, code, rest);
  }

  lemma ExtraBelow(bits: seq<bool>, n: nat, e: nat, rest: seq<bool>)
    requires (n == 2 || n == 3) && Field(bits, n) == Parsed(e, rest)
    ensures e < if n == 2 then 4 else 8
  {
    assert Pow2(2) == 4 && Pow2(3) == 8;
    FieldExactly(bits, n, e, rest);
  }

  /** A code and, for 16 and 17, its extra bits. */
  function TokenOf(code: nat, extra: nat): Token {
    if code < 16 then Literal(code) else RepeatToken(code, extra)
  }

  /** The extra bits of a code that repeats. */
  method ReadExtra(reader: NibbleReader, clen: nat) returns (ok: bool, extra: nat)
    requires reader.Valid() && clen < 18
    modifies reader`position
    ensures reader.Valid()
    ensures ok <==> TokenAfter(clen, old(reader.Unread())).Parsed?
    ensures ok ==>
      && WellFormed(TokenOf(clen, extra))
      && TokenAfter(clen, old(reader.Unread())) == Parsed(TokenOf(clen, extra), reader.Unread())
  {
    ok, extra := true, 0;
    if clen >= 16 {
      ghost var before := reader.Unread();
      ok, extra := ReadField(reader, clen - 14);
      if ok { ExtraBelow(before, clen - 14, extra, reader.Unread()); }
    }
  }

  method ReadToken(reader: NibbleReader, codes: Huffman, ghost at: map<Path, Huffman>, ghost lens: seq<byte>)
    returns (ok: bool, clen: nat, extra: nat)
    requires reader.Valid() && Usable(lens) && |lens| == 18 && IsTree(codes, at, Codebook(lens))
    modifies reader`position
    ensures reader.Valid()
    ensures ok <==> NextToken(lens, old(reader.Unread())).Parsed?
    ensures ok ==>
      && clen < 18 && WellFormed(TokenOf(clen, extra))
      && NextToken(lens, old(reader.Unread())) == Parsed(TokenOf(clen, extra), reader.Unread())
  {
    ghost var before := reader.Unread();
    extra := 0;
    ok, clen := DecodeSymbol(codes, at, Codebook(lens), reader);
    if ok {
      CodeBelow(lens, before, clen, reader.Unread());
      ok, extra := ReadExtra(reader, clen);
    }
  }

  lemma SecondStart(bits: seq<bool>, lens: seq<byte>, size: nat, codeLength: seq<byte>)
    requires codeLength == seq(size, _ => 0)
    ensures SecondState(bits, bits, lens, size, [], Loop(0, codeLength, SPACE, 0, 8, 0))
  {
    assert codeLength == FinalLengths(size, []);
  }

  /** The body of that loop once the token is read. */
  method StoreToken(ghost bits: seq<bool>, ghost before: seq<bool>, ghost after: seq<bool>, ghost lens: seq<byte>,
                    size: nat, ghost ts: seq<Token>, v: Loop, clen: nat, extra: nat)
    returns (fits: bool, v': Loop)
    requires SecondState(bits, before, lens, size, ts, v) && v.i < size && v.space != 0
    requires clen < 18 && WellFormed(TokenOf(clen, extra))
    requires NextToken(lens, before) == Parsed(TokenOf(clen, extra), after)
    ensures !fits ==> LengthTokens(bits, lens, size, []) == Failed
    ensures fits ==>
      && v'.i > v.i && (clen >= 16 ==> v'.i >= v.i + 3)
      && SecondState(bits, after, lens, size, ts + [TokenOf(clen, extra)], v')
  {
    if clen < 16 {
      SecondStep(before, lens, size, ts, Literal(clen), after);
      LiteralStep(size, ts, v, clen);
      v' := Loop(v.i + 1, v.codeLength[v.i := clen], (v.space - Cost(clen, 1)) % TWO32,
                 0, if clen != 0 then clen else v.prevclen, v.prevrepl);
      fits := true;
    } else {
      fits, v' := StoreRepeat(bits, before, after, lens, size, ts, v, clen, extra);
    }
  }

  method StoreRepeat(ghost bits: seq<bool>, ghost before: seq<bool>, ghost after: seq<bool>, ghost lens: seq<byte>,
                     size: nat, ghost ts: seq<Token>, v: Loop, clen: nat, extra: nat)
    returns (fits: bool, v': Loop)
    requires SecondState(bits, before, lens, size, ts, v) && v.i < size && v.space != 0
    requires (clen == 16 || clen == 17) && WellFormed(RepeatToken(clen, extra))
    requires NextToken(lens, before) == Parsed(RepeatToken(clen, extra), after)
    ensures !fits ==> LengthTokens(bits, lens, size, []) == Failed
    ensures fits ==> v'.i >= v.i + 3 && SecondState(bits, after, lens, size, ts + [RepeatToken(clen, extra)], v')
  {
    var repclen, repeat, delta := RepeatLength(ts, v, clen, extra);
    SecondStep(before, lens, size, ts, RepeatToken(clen, extra), after);
    RepeatStep(size, ts, v, clen, extra, repclen, repeat, delta);
    fits, v' := v.i + delta <= size, v;
    if fits {
      v' := Loop(v.i + delta, Fill(v.codeLength, v.i, repclen, delta), (v.space - Cost(repclen, delta)) % TWO32,
                 repeat, v.prevclen, repclen);
    }
  }

  /** What is repeated, the repeat count of the chain and how much of it is new. */
  method RepeatLength(ghost ts: seq<Token>, v: Loop, clen: nat, extraBits: nat)
    returns (repclen: byte, repeat: nat, delta: nat)
    requires AllWellFormed(ts) && (clen == 16 || clen == 17)
    requires v.repeat == Repeat(ts) && v.prevclen == Prev(ts) && Repeats(ts, v)
    ensures repclen == if clen == 16 then v.prevclen else 0
    ensures var ts' := ts + [RepeatToken(clen, extraBits)];
      repeat == Repeat(ts') && delta == Delta(ts') && repclen == Run(ts') && Prev(ts') == v.prevclen
  {
    PrevRange(ts);
    repclen := if clen == 16 then v.prevclen else 0;
    var extra := 3 + extraBits;
    repeat := if v.prevrepl == repclen then v.repeat else 0;
    delta := repeat;
    if repeat != 0 { RepeatShift(ts, repeat, clen - 14); }
    var count: nat := (if repeat != 0 then Shl(repeat - 2, clen - 14) else repeat) + extra;
    RepeatCounts(ts, v, clen, extraBits, repclen, repeat, count);
    repeat := count;
    delta := repeat - delta;
  }

  lemma RepeatShift(ts: seq<Token>, repeat: nat, n: nat)
    requires repeat != 0 && repeat == Repeat(ts)
    ensures Shl(repeat - 2, n) >= 0
  {
    ShlNonNegative(repeat - 2, n);
  }

  lemma SecondEnd(bits: seq<bool>, unread: seq<bool>, lens: seq<byte>, size: nat, ts: seq<Token>, v: Loop)
    requires SecondState(bits, unread, lens, size, ts, v) && (v.i == size || v.space == 0)
    ensures LengthTokens(bits, lens, size, []) == Parsed(ts, unread)
    ensures |Expand(ts)| <= size && v.codeLength == FinalLengths(size, ts)
  {
  }

  /** One turn of the second loop: a token is read and stored. */
  method OneToken(reader: NibbleReader, codes: Huffman, ghost at: map<Path, Huffman>, ghost lens: seq<byte>, size: nat,
                  ghost bits: seq<bool>, ghost ts: seq<Token>, v: Loop)
    returns (ok: bool, ghost ts': seq<Token>, v': Loop)
    requires reader.Valid() && Usable(lens) && |lens| == 18 && IsTree(codes, at, Codebook(lens))
    requires SecondState(bits, reader.Unread(), lens, size, ts, v) && v.i < size && v.space != 0
    modifies reader`position
    ensures reader.Valid()
    ensures !ok ==> LengthTokens(bits, lens, size, []) == Failed
    ensures ok ==> v'.i > v.i && SecondState(bits, reader.Unread(), lens, size, ts', v')
  {
    ghost var before := reader.Unread();
    var clen, extra;
    v' := v;
    ok, clen, extra := ReadToken(reader, codes, at, lens);
    ts' := ts + [TokenOf(clen, extra)];
    if ok {
      ok, v' := StoreToken(bits, before, reader.Unread(), lens, size, ts, v, clen, extra);
    } else {
      SecondStuck(before, lens, size, ts);
    }
  }

  /** The second loop: code lengths until all are there or the space is used up. */
  method ReadCodeLengths(reader: NibbleReader, codes: Huffman, ghost at: map<Path, Huffman>, ghost lens: seq<byte>,
      size: nat)
    returns (ok: bool, codeLength: seq<byte>, ghost ts: seq<Token>)
    requires reader.Valid() && Usable(lens) && |lens| == 18 && IsTree(codes, at, Codebook(lens))
    modifies reader`position
    ensures reader.Valid()
    ensures ok <==> LengthTokens(old(reader.Unread()), lens, size, []).Parsed?
    ensures ok ==>
      && LengthTokens(old(reader.Unread()), lens, size, []) == Parsed(ts, reader.Unread())
      && |Expand(ts)| <= size && codeLength == FinalLengths(size, ts)
  {
    ghost var bits := reader.Unread();
    codeLength, ts := seq(size, _ => 0), [];
    var v := Loop(0, codeLength, SPACE, 0, 8, 0);
    SecondStart(bits, lens, size, codeLength);
    ok := true;
    while v.i < size && v.space != 0
      invariant reader.Valid() && IsTree(codes, at, Codebook(lens)) && ok
      invariant SecondState(bits, reader.Unread(), lens, size, ts, v)
      decreases size - v.i
    {
      ok, ts, v := OneToken(reader, codes, at, lens, size, bits, ts, v);
      if !ok {
        return;
      }
    }
    SecondEnd(bits, reader.Unread(), lens, size, ts, v);
    codeLength := v.codeLength;
  }

  // --- simple and complex descriptions --------------------------------------------------------------------

  /** The number of bits of a symbol: those of the largest one. */
  method CountBits(size: nat) returns (abb: nat)
    requires size < TWO64
    ensures abb == AlphabetBits(size)
  {
    abb := 0;
    var x: nat := if size == 0 then TWO64 - 1 else size - 1;
    ghost var x0 := x;
    while x != 0
      invariant abb + BitLength(x) == BitLength(x0)
    {
      abb := abb + 1;
      x := x / 2;
    }
  }

  method ReadSymbolList(reader: NibbleReader, n: nat, width: nat) returns (ok: bool, buff: seq<nat>)
    requires reader.Valid()
    modifies reader`position
    ensures reader.Valid()
    ensures ok <==> ReadSymbols(old(reader.Unread()), n, width, []).Parsed?
    ensures ok ==> ReadSymbols(old(reader.Unread()), n, width, []) == Parsed(buff, reader.Unread()) && |buff| == n
  {
    ghost var bits := reader.Unread();
    buff := [];
    for i := 0 to n
      invariant reader.Valid() && |buff| == i
      invariant ReadSymbols(bits, n, width, []) == ReadSymbols(reader.Unread(), n, width, buff)
    {
      var got, v := ReadField(reader, width);
      if !got {
        return false, buff;
      }
      buff := buff + [v];
    }
    ok := true;
  }

  lemma SimpleEntries(symbols: seq<nat>, select: bool)
    requires 1 <= |symbols| <= 4
    ensures var n, book := |symbols|, SimpleBook(symbols, select);
      forall i :: 0 <= i < n ==>
        book[i] == Entry(Code(SimpleNumber(n, select, i), if n == 1 then 0 else SimpleLens(n, select)[i]), symbols[i])
  {
    var n, book := |symbols|, SimpleBook(symbols, select);
    forall i | 0 <= i < n
      ensures book[i] == Entry(Code(SimpleNumber(n, select, i), if n == 1 then 0 else SimpleLens(n, select)[i]),
          symbols[i])
    {
      SimpleSymbols(n, select, n);
      if n > 1 { SimpleNumbers(n, select, i); }
    }
  }

  /** The `switch` over the number of symbols: one tree for each case. */
  method SimpleRoot(buff: seq<nat>, select: bool) returns (root: Huffman, ghost at: map<Path, Huffman>)
    requires 1 <= |buff| <= 4
    ensures IsTree(root, at, SimpleBook(buff, select)) && fresh(at.Values)
  {
    SimpleEntries(buff, select);
    var numbers, lengths := SimpleCodes(|buff|, select);
    root, at := Plant(numbers, lengths, buff, SimpleBook(buff, select));
  }

  method SimpleCodes(count: nat, select: bool) returns (numbers: seq<nat>, lengths: seq<nat>)
    requires 1 <= count <= 4
    ensures |numbers| == |lengths| == count
    ensures forall i :: 0 <= i < count ==> numbers[i] == SimpleNumber(count, select, i)
    ensures forall i :: 0 <= i < count ==> lengths[i] == if count == 1 then 0 else SimpleLens(count, select)[i] as int
  {
    if count == 1 {
      numbers, lengths := [0], [0];
    } else if count == 2 {
      numbers, lengths := [0, 1], [1, 1];
    } else if count == 3 {
      numbers, lengths := [0, 2, 3], [1, 2, 2];
    } else if select {
      numbers, lengths := [0, 2, 6, 7], [1, 2, 3, 3];
    } else {
      numbers, lengths := [0, 1, 2, 3], [2, 2, 2, 2];
    }
  }

  method DecodeSimple(reader: NibbleReader, size: nat)
    returns (ok: bool, root: Huffman?, ghost at: map<Path, Huffman>, ghost d: Description)
    requires reader.Valid() && size < TWO64
    modifies reader`position
    ensures reader.Valid()
    ensures ok <==> ReadSimple(old(reader.Unread()), AlphabetBits(size)).Parsed?
    ensures ok ==>
      && ReadSimple(old(reader.Unread()), AlphabetBits(size)) == Parsed(d, reader.Unread())
      && d.Simple? && 1 <= |d.symbols| <= 4
      && root != null && IsTree(root, at, SimpleBook(d.symbols, d.select)) && fresh(at.Values)
  {
    ghost var bits := reader.Unread();
    ok, root, at, d := false, null, map[], Simple([], false);
    var abb := CountBits(size);
    var got, n := ReadField(reader, 2);
    if !got {
      return;
    }
    ghost var more := reader.Unread();
    assert Pow2(2) == 4;
    FieldExactly(bits, 2, n, more);
    var buff, select: nat;
    got, buff := ReadSymbolList(reader, n + 1, abb);
    if !got {
      return;
    }
    select := 0;
    if n == 3 {
      got, select := ReadField(reader, 1);
      if !got {
        return;
      }
    }
    d := Simple(buff, select == 1);
    root, at := SimpleRoot(buff, select == 1);
    ok := true;
  }

  method DecodeComplex(reader: NibbleReader, skip: nat, size: nat)
    returns (ok: bool, root: Huffman?, ghost at: map<Path, Huffman>, ghost d: Description)
    requires reader.Valid() && skip <= 18
    modifies reader`position
    ensures reader.Valid()
    ensures ok <==> ReadComplex(old(reader.Unread()), skip, size).Parsed?
    ensures ok ==>
      && ReadComplex(old(reader.Unread()), skip, size) == Parsed(d, reader.Unread())
      && d.Complex? && |Expand(d.tokens)| <= size
      && root != null && IsTree(root, at, Codebook(FinalLengths(size, d.tokens))) && fresh(at.Values)
  {
    ghost var bits := reader.Unread();
    ok, root, at, d := false, null, map[], Simple([], false);
    var got, symbolLength, codeLength; ghost var ls, ts, inner;
    got, symbolLength, ls := ReadLengthCode(reader, skip);
    if !got {
      return;
    }
    LengthCodeReads(bits, skip, [], ls, reader.Unread());
    LengthsFit(skip, ls);
    var codes;
    codes, inner := CreateHuffman(symbolLength);
    got, codeLength, ts := ReadCodeLengths(reader, codes, inner, symbolLength, size);
    if !got {
      return;
    }
    d := Complex(skip, ls, ts);
    root, at := CreateHuffman(codeLength);
    ok := true;
  }

  /** `DecodeHuffman`: the description is read, and the tree of its code is built. */
  method DecodeHuffman(reader: NibbleReader, size: nat)
    returns (ok: bool, root: Huffman?, ghost at: map<Path, Huffman>, ghost d: Description)
    requires reader.Valid() && size < TWO64
    modifies reader`position
    ensures reader.Valid()
    ensures ok <==> Describe(old(reader.Unread()), size).Parsed?
    ensures ok ==>
      && Describe(old(reader.Unread()), size) == Parsed(d, reader.Unread())
      && Valid(d, size) && old(reader.Unread()) == Spell(d, size) + reader.Unread()
      && root != null && IsTree(root, at, BookOf(d, size)) && fresh(at.Values)
  {
    ghost var bits := reader.Unread();
    ok, root, at, d := false, null, map[], Simple([], false);
    var got, skip := ReadField(reader, 2);
    if !got {
      return;
    }
    assert Pow2(2) == 4;
    FieldExactly(bits, 2, skip, reader.Unread());
    if skip == 1 {
      ok, root, at, d := DecodeSimple(reader, size);
    } else {
      ok, root, at, d := DecodeComplex(reader, skip, size);
    }
    if ok { DescribeReads(bits, size, d, reader.Unread()); }
  }
}