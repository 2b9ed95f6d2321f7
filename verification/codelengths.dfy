/**
  What `DecodeHuffman` of Compression/src/Brotli.cpp reads (section 3 of RFC 7932), as functions on the bits
  that are left, and what a description of a prefix code means.
*/
module CodeLengths {
  import opened Words
  import opened BitStreams
  import opened PrefixCodes
  import opened CanonicalCodes

  /** A value and the bits behind it; `Failed` where the program stops. */
  datatype Parsed<T> = Parsed(value: T, rest: seq<bool>) | Failed

  // --- fields and symbols ---------------------------------------------------------------------------------

  /** `n` bits, the first one least significant. */
  function Take(bits: seq<bool>, n: nat): Parsed<nat> {
    if n == 0 then Parsed(0, bits)
    else if bits == [] then Failed
    else match Take(bits[1..], n - 1)
         case Failed => Failed
         case Parsed(v, rest) => Parsed(BitValue(bits[0]) + 2 * v, rest)
  }

  function Field(bits: seq<bool>, n: nat): Parsed<nat> {
    if n > 64 then Failed else Take(bits, n)
  }

  lemma {:induction false} TakeIsNumber(bits: seq<bool>, n: nat)
    ensures Take(bits, n) == if n > |bits| then Failed else Parsed(Number(bits[..n]), bits[n..])
  {
    if n == 0 {
      assert bits[..0] == [] && bits[0..] == bits;
    } else if bits != [] {
      TakeIsNumber(bits[1..], n - 1);
      if n <= |bits| {
        NumberCons(bits[..n]);
        assert bits[..n][1..] == bits[1..][..n - 1] && bits[1..][n - 1..] == bits[n..];
      }
    }
  }

  function BitsOf(v: nat, n: nat): (bits: seq<bool>)
    ensures |bits| == n
  {
    if n == 0 then [] else [v % 2 == 1] + BitsOf(v / 2, n - 1)
  }

  lemma {:induction false} NumberOfBits(v: nat, n: nat)
    requires v < Pow2(n)
    ensures Number(BitsOf(v, n)) == v
  {
    if n > 0 {
      NumberOfBits(v / 2, n - 1);
      NumberCons(BitsOf(v, n));
      assert BitsOf(v, n)[1..] == BitsOf(v / 2, n - 1);
    }
  }

  /** Reading a field undoes writing it, and nothing else does. */
  lemma FieldExactly(bits: seq<bool>, n: nat, v: nat, rest: seq<bool>)
    requires n <= 64
    ensures Field(bits, n) == Parsed(v, rest) <==> v < Pow2(n) && bits == BitsOf(v, n) + rest
  {
    TakeIsNumber(bits, n);
    if Field(bits, n) == Parsed(v, rest) {
      NumberBound(bits[..n]);
      NumberOfBits(v, n);
      NumberInjective(bits[..n], BitsOf(v, n));
      assert bits == bits[..n] + bits[n..];
    }
    if v < Pow2(n) && bits == BitsOf(v, n) + rest {
      NumberOfBits(v, n);
      assert bits[..n] == BitsOf(v, n) && bits[n..] == rest;
    }
  }

  function Symbol(book: seq<Entry>, bits: seq<bool>): Parsed<nat> {
    var shape := ShapeOf(book);
    ShapeDomain(book, []);
    WalkReads(shape, [], bits);
    match Walk(shape, [], bits)
    case Stop(p) => Parsed(shape[p], bits[|p|..])
    case _ => Failed
  }

  lemma SymbolFinds(book: seq<Entry>, i: nat, rest: seq<bool>)
    requires PrefixFree(book) && i < |book|
    ensures Symbol(book, book[i].word + rest) == Parsed(book[i].value, rest)
  {
    WalkFinds(book, i, rest);
    assert (book[i].word + rest)[|book[i].word|..] == rest;
  }

  lemma SymbolReads(book: seq<Entry>, bits: seq<bool>) returns (i: nat)
    requires PrefixFree(book) && book != [] && Symbol(book, bits).Parsed?
    ensures i < |book| && Symbol(book, bits).value == book[i].value
    ensures bits == book[i].word + Symbol(book, bits).rest
  {
    i := StopIsEntry(book, bits);
    var w := book[i].word;
    assert bits == bits[..|w|] + bits[|w|..];
  }

  /** The code word of symbol `s`; a lone symbol has the empty one. */
  function CodeWord(lens: seq<byte>, s: nat): Path
    requires s < |lens|
  {
    if Symbols(lens, |lens|) == 1 then [] else Word(lens, s)
  }

  /** Lengths whose tree decodes: they use up the space, or there is one symbol only. */
  ghost predicate Usable(lens: seq<byte>) {
    Lengths(lens) && (Symbols(lens, |lens|) == 1 || (Symbols(lens, |lens|) >= 2 && Kraft(lens) == SPACE))
  }

  lemma UsableBook(lens: seq<byte>)
    requires Usable(lens)
    ensures PrefixFree(Codebook(lens)) && Codebook(lens) != []
  {
    if Symbols(lens, |lens|) != 1 {
      BookPrefixFree(lens);
      BookSize(lens, |lens|);
    }
  }

  /** A symbol is read from its code word and from nothing else. */
  lemma SymbolExactly(lens: seq<byte>, bits: seq<bool>, s: nat, rest: seq<bool>)
    requires Usable(lens)
    ensures Symbol(Codebook(lens), bits) == Parsed(s, rest) <==>
      s < |lens| && lens[s] > 0 && bits == CodeWord(lens, s) + rest
  {
    UsableBook(lens);
    if Symbol(Codebook(lens), bits) == Parsed(s, rest) {
      var i := SymbolReads(Codebook(lens), bits);
      EntryOfBook(lens, i);
    }
    if s < |lens| && lens[s] > 0 && bits == CodeWord(lens, s) + rest {
      var i := IndexInBook(lens, s);
      SymbolFinds(Codebook(lens), i, rest);
    }
  }

  lemma EntryOfBook(lens: seq<byte>, i: nat)
    requires Usable(lens) && i < |Codebook(lens)|
    ensures var s := Codebook(lens)[i].value;
      s < |lens| && lens[s] > 0 && Codebook(lens)[i].word == CodeWord(lens, s)
  {
    if Symbols(lens, |lens|) == 1 { LastIsSymbol(lens, |lens|); } else { BookEntry(lens, |lens|, i); }
  }

  lemma IndexInBook(lens: seq<byte>, s: nat) returns (i: nat)
    requires Usable(lens) && s < |lens| && lens[s] > 0
    ensures i < |Codebook(lens)| && Codebook(lens)[i] == Entry(CodeWord(lens, s), s)
  {
    if Symbols(lens, |lens|) == 1 {
      LastIsSymbol(lens, |lens|);
      i := 0;
    } else {
      i := BookHas(lens, |lens|, s);
    }
  }

  // --- the code of the code lengths -----------------------------------------------------------------------

  /** The lengths of the fixed code that spells the code length code. */
  const FIXED: seq<byte> := [2, 4, 3, 2, 2, 4]

  /** The order in which the lengths of the code length code come: 1, 2, 3, 4, 0, 5, 17, 6, 16, 7 .. 15. */
  function OrderOf(i: nat): (s: nat)
    requires i < 18
    ensures s < 18
  {
    if i < 4 then i + 1 else if i == 4 then 0 else if i == 5 then 5
    else if i == 6 then 17 else if i == 7 then 6 else if i == 8 then 16 else i - 2
  }

  lemma RanksOfFixed(l: nat)
    ensures Rank(FIXED, l, 1) == if l == 2 then 1 else 0
    ensures Rank(FIXED, l, 2) == if l == 2 || l == 4 then 1 else 0
    ensures Rank(FIXED, l, 3) == if 2 <= l <= 4 then 1 else 0
    ensures Rank(FIXED, l, 4) == if l == 2 then 2 else if 3 <= l <= 4 then 1 else 0
    ensures Rank(FIXED, l, 5) == if l == 2 then 3 else if 3 <= l <= 4 then 1 else 0
    ensures Rank(FIXED, l, 6) == if l == 2 then 3 else if l == 3 then 1 else if l == 4 then 2 else 0
  {
    assert Rank(FIXED, l, 0) == 0;
  }

  lemma OffsetsOfFixed()
    ensures Offset(FIXED, 2) == 0 && Offset(FIXED, 3) == 6 && Offset(FIXED, 4) == 14
  {
    RanksOfFixed(1);
    RanksOfFixed(2);
    RanksOfFixed(3);
    assert Offset(FIXED, 0) == 0;
    assert Offset(FIXED, 1) == 0;
  }

  /** The fixed code is the canonical one: 00, 1110, 110, 01, 10, 1111. */
  lemma FixedNumbers()
    ensures CodeNumber(FIXED, 0) == 0 && CodeNumber(FIXED, 1) == 14 && CodeNumber(FIXED, 2) == 6
    ensures CodeNumber(FIXED, 3) == 1 && CodeNumber(FIXED, 4) == 2 && CodeNumber(FIXED, 5) == 15
  {
    OffsetsOfFixed();
    RanksOfFixed(2);
    RanksOfFixed(3);
    RanksOfFixed(4);
  }

  lemma KraftStep(lens: seq<byte>, n: nat, l: nat, w: int)
    requires n < |lens| && Lengths(lens) && l == lens[n] && w == Weight(l)
    ensures KraftSum(lens, n + 1) == KraftSum(lens, n) + w
  {
  }

  lemma FixedKraft()
    ensures KraftSum(FIXED, 6) == SPACE
  {
    WeightValues();
    KraftStep(FIXED, 0, 2, 0x2000);
    KraftStep(FIXED, 1, 4, 0x800);
    KraftStep(FIXED, 2, 3, 0x1000);
    KraftStep(FIXED, 3, 2, 0x2000);
    KraftStep(FIXED, 4, 2, 0x2000);
    KraftStep(FIXED, 5, 4, 0x800);
  }

  lemma FixedUsable()
    ensures Usable(FIXED)
  {
    FixedKraft();
    KraftIsSum(FIXED);
    assert Symbols(FIXED, 2) == 2;
    assert Symbols(FIXED, 4) == 4;
    assert Symbols(FIXED, 6) == 6;
  }

  /** `32 >> l`, the share of a code length of at most 5. */
  function Units(l: nat): int {
    if l == 0 then 0 else Shr(32, l)
  }

  lemma WeightValues()
    ensures Weight(1) == 0x4000 && Weight(2) == 0x2000 && Weight(3) == 0x1000
    ensures Weight(4) == 0x800 && Weight(5) == 0x400
    ensures Units(1) == 16 && Units(2) == 8 && Units(3) == 4 && Units(4) == 2 && Units(5) == 1
  {
    assert Shl(1, 5) == 0x20;
    assert Shl(1, 8) == 0x100;
    assert Shl(1, 10) == 0x400;
    assert Shl(1, 12) == 0x1000;
    assert Shl(1, 13) == 0x2000;
    assert Shr(32, 2) == 8 && Shr(32, 3) == 4;
    assert Shr(32, 4) == Shr(8, 2) == 2;
    assert Shr(32, 5) == Shr(8, 3) == 1;
  }

  function UnitSum(ls: seq<nat>): int {
    if ls == [] then 0 else UnitSum(ls[..|ls| - 1]) + Units(ls[|ls| - 1])
  }

  function NonZero(ls: seq<nat>): nat {
    if ls == [] then 0 else NonZero(ls[..|ls| - 1]) + if ls[|ls| - 1] != 0 then 1 else 0
  }

  /** No more lengths are read: all 18 have come, or the units are used up. */
  predicate Enough(skip: nat, ls: seq<nat>) {
    skip + |ls| >= 18 || UnitSum(ls) == 32
  }

  predicate Accepted(ls: seq<nat>) {
    UnitSum(ls) == 32 || NonZero(ls) == 1
  }

  function LengthCode(bits: seq<bool>, skip: nat, ls: seq<nat>): Parsed<seq<nat>>
    decreases 18 - skip - |ls|
  {
    if Enough(skip, ls) then
      if Accepted(ls) then Parsed(ls, bits) else Failed
    else
      match Symbol(Codebook(FIXED), bits)
      case Parsed(l, rest) => LengthCode(rest, skip, ls + [l])
      case Failed => Failed
  }

  function SpellLengths(ls: seq<nat>, k: nat): seq<bool>
    requires k <= |ls|
    decreases |ls| - k
  {
    if k == |ls| then []
    else (if ls[k] < 6 then CodeWord(FIXED, ls[k]) else []) + SpellLengths(ls, k + 1)
  }

  ghost predicate LengthsFrom(skip: nat, ls: seq<nat>, k: nat) {
    && Enough(skip, ls) && Accepted(ls)
    && forall j :: k <= j < |ls| ==> ls[j] < 6 && !Enough(skip, ls[..j])
  }

  lemma FixedSymbol(bits: seq<bool>, s: nat, rest: seq<bool>)
    ensures Symbol(Codebook(FIXED), bits) == Parsed(s, rest) <==> s < 6 && bits == CodeWord(FIXED, s) + rest
  {
    FixedUsable();
    SymbolExactly(FIXED, bits, s, rest);
  }

  lemma LengthCodeStep(bits: seq<bool>, skip: nat, seen: seq<nat>, l: nat, more: seq<bool>)
    requires !Enough(skip, seen) && l < 6 && bits == CodeWord(FIXED, l) + more
    ensures LengthCode(bits, skip, seen) == LengthCode(more, skip, seen + [l])
  {
    FixedSymbol(bits, l, more);
  }

  lemma SpellStep(ls: seq<nat>, k: nat, rest: seq<bool>)
    requires k < |ls| && ls[k] < 6
    ensures SpellLengths(ls, k) + rest == CodeWord(FIXED, ls[k]) + (SpellLengths(ls, k + 1) + rest)
  {
  }

  lemma {:induction false} LengthCodeFinds(skip: nat, ls: seq<nat>, k: nat, rest: seq<bool>)
    requires k <= |ls| && LengthsFrom(skip, ls, k)
    ensures LengthCode(SpellLengths(ls, k) + rest, skip, ls[..k]) == Parsed(ls, rest)
    decreases |ls| - k
  {
    if k == |ls| {
      assert ls[..k] == ls && SpellLengths(ls, k) + rest == rest;
    } else {
      SpellStep(ls, k, rest);
      LengthCodeStep(SpellLengths(ls, k) + rest, skip, ls[..k], ls[k], SpellLengths(ls, k + 1) + rest);
      assert ls[..k + 1] == ls[..k] + [ls[k]];
      LengthCodeFinds(skip, ls, k + 1, rest);
    }
  }

  lemma LengthCodeNext(bits: seq<bool>, skip: nat, seen: seq<nat>) returns (l: nat, more: seq<bool>)
    requires LengthCode(bits, skip, seen).Parsed? && !Enough(skip, seen)
    ensures l < 6 && bits == CodeWord(FIXED, l) + more
    ensures LengthCode(bits, skip, seen) == LengthCode(more, skip, seen + [l])
  {
    l, more := Symbol(Codebook(FIXED), bits).value, Symbol(Codebook(FIXED), bits).rest;
    FixedSymbol(bits, l, more);
  }

  lemma {:induction false} LengthCodeReads(bits: seq<bool>, skip: nat, seen: seq<nat>, ls: seq<nat>, rest: seq<bool>)
    requires LengthCode(bits, skip, seen) == Parsed(ls, rest)
    ensures seen <= ls && LengthsFrom(skip, ls, |seen|) && bits == SpellLengths(ls, |seen|) + rest
    decreases 18 - skip - |seen|
  {
    if Enough(skip, seen) {
      assert SpellLengths(seen, |seen|) == [];
    } else {
      var l, more := LengthCodeNext(bits, skip, seen);
      LengthCodeReads(more, skip, seen + [l], ls, rest);
      LengthsBack(skip, seen, l, ls);
      SpellStep(ls, |seen|, rest);
    }
  }

  lemma LengthsBack(skip: nat, seen: seq<nat>, l: nat, ls: seq<nat>)
    requires seen + [l] <= ls && l < 6 && !Enough(skip, seen) && LengthsFrom(skip, ls, |seen| + 1)
    ensures seen <= ls && ls[|seen|] == l && LengthsFrom(skip, ls, |seen|)
  {
    assert ls[..|seen|] == seen && ls[|seen|] == (seen + [l])[|seen|];
  }

  /** The code length code as it is stored by symbol. */
  function Assigned(skip: nat, ls: seq<nat>): (lens: seq<byte>)
    requires skip + |ls| <= 18 && forall j :: 0 <= j < |ls| ==> ls[j] < 6
    ensures |lens| == 18
  {
    if ls == [] then seq(18, _ => 0)
    else Assigned(skip, ls[..|ls| - 1])[OrderOf(skip + |ls| - 1) := ls[|ls| - 1]]
  }

  lemma {:induction false} AssignedZero(skip: nat, ls: seq<nat>, t: nat)
    requires skip + |ls| <= 18 && t < 18 && forall j :: 0 <= j < |ls| ==> ls[j] < 6 && OrderOf(skip + j) != t
    ensures Assigned(skip, ls)[t] == 0
  {
    if ls != [] {
      var init := ls[..|ls| - 1];
      assert ls[|ls| - 1] < 6;
      forall j | 0 <= j < |init| ensures init[j] < 6 && OrderOf(skip + j) != t { assert ls[j] < 6; }
      AssignedZero(skip, init, t);
    }
  }

  lemma OrderInjective(i: nat, j: nat)
    requires i < j < 18
    ensures OrderOf(i) != OrderOf(j)
  {
  }

  /** The length that was read in place `k`, counted from 0; zero if it was skipped or not read any more. */
  function InPlace(skip: nat, ls: seq<nat>, k: nat): nat {
    if skip <= k < skip + |ls| then ls[k - skip] else 0
  }

  lemma {:induction false} AssignedAt(skip: nat, ls: seq<nat>, k: nat)
    requires skip + |ls| <= 18 && k < 18 && forall j :: 0 <= j < |ls| ==> ls[j] < 6
    ensures Assigned(skip, ls)[OrderOf(k)] == InPlace(skip, ls, k)
  {
    if ls != [] {
      var n := |ls| - 1;
      AssignedAt(skip, ls[..n], k);
      if k < skip + n { OrderInjective(k, skip + n); } else if skip + n < k { OrderInjective(skip + n, k); }
    }
  }

  /**
    Where the length of each symbol of the code length code comes from (section 3.5 of RFC 7932): symbols 1 to 4 take
    the first places, then come 0, 5, 17, 6, 16, and 7 to 15.
  */
  lemma AssignedInOrder(skip: nat, ls: seq<nat>)
    requires skip + |ls| <= 18 && forall j :: 0 <= j < |ls| ==> ls[j] < 6
    ensures var lens := Assigned(skip, ls);
      && lens[0] == InPlace(skip, ls, 4) && lens[5] == InPlace(skip, ls, 5) && lens[6] == InPlace(skip, ls, 7)
      && lens[16] == InPlace(skip, ls, 8) && lens[17] == InPlace(skip, ls, 6)
      && (forall s :: 1 <= s <= 4 ==> lens[s] == InPlace(skip, ls, s - 1))
      && (forall s :: 7 <= s <= 15 ==> lens[s] == InPlace(skip, ls, s + 2))
  {
    AssignedAt(skip, ls, 4);
    AssignedAt(skip, ls, 5);
    AssignedAt(skip, ls, 6);
    AssignedAt(skip, ls, 7);
    AssignedAt(skip, ls, 8);
    forall s | 1 <= s <= 4 ensures Assigned(skip, ls)[s] == InPlace(skip, ls, s - 1) { AssignedAt(skip, ls, s - 1); }
    forall s | 7 <= s <= 15 ensures Assigned(skip, ls)[s] == InPlace(skip, ls, s + 2) { AssignedAt(skip, ls, s + 2); }
  }

  lemma {:induction false} SumsUpdate(lens: seq<byte>, j: nat, c: byte, n: nat)
    requires Lengths(lens) && j < |lens| && lens[j] == 0 && c <= MAXLEN && n <= |lens|
    ensures Lengths(lens[j := c])
    ensures KraftSum(lens[j := c], n) == KraftSum(lens, n) + if j < n then Weight(c) else 0
    ensures Symbols(lens[j := c], n) == Symbols(lens, n) + if j < n && c > 0 then 1 else 0
  {
    if n > 0 { SumsUpdate(lens, j, c, n - 1); }
  }

  lemma {:induction false} SumsOfZeros(lens: seq<byte>, n: nat)
    requires n <= |lens| && forall j :: 0 <= j < |lens| ==> lens[j] == 0
    ensures Lengths(lens) && KraftSum(lens, n) == 0 && Symbols(lens, n) == 0
  {
    if n > 0 { SumsOfZeros(lens, n - 1); }
  }

  lemma UnitsAreWeight(l: nat)
    requires l < 6
    ensures Weight(l) == 1024 * Units(l) && Units(l) <= if l == 0 then 0 else 16
  {
    WeightValues();
  }

  lemma {:induction false} AssignedSums(skip: nat, ls: seq<nat>)
    requires skip + |ls| <= 18 && forall j :: 0 <= j < |ls| ==> ls[j] < 6
    ensures Lengths(Assigned(skip, ls))
    ensures KraftSum(Assigned(skip, ls), 18) == 1024 * UnitSum(ls)
    ensures Symbols(Assigned(skip, ls), 18) == NonZero(ls)
    ensures UnitSum(ls) <= 16 * NonZero(ls)
  {
    if ls == [] {
      SumsOfZeros(Assigned(skip, ls), 18);
    } else {
      var n := |ls| - 1;
      AssignedSums(skip, ls[..n]);
      forall j | 0 <= j < n ensures ls[..n][j] < 6 && OrderOf(skip + j) != OrderOf(skip + n) {
        OrderInjective(skip + j, skip + n);
      }
      AssignedZero(skip, ls[..n], OrderOf(skip + n));
      SumsUpdate(Assigned(skip, ls[..n]), OrderOf(skip + n), ls[n], 18);
      UnitsAreWeight(ls[n]);
    }
  }

  /** The check after the first loop lets pass exactly the lengths of a single leaf and of a full tree. */
  lemma AcceptedExactly(skip: nat, ls: seq<nat>)
    requires skip + |ls| <= 18 && forall j :: 0 <= j < |ls| ==> ls[j] < 6
    ensures Accepted(ls) <==> Usable(Assigned(skip, ls))
  {
    AssignedSums(skip, ls);
    KraftIsSum(Assigned(skip, ls));
  }

  // --- the code lengths -----------------------------------------------------------------------------------

  /** A code length, a repetition of the last non-zero one, or a repetition of zero. */
  datatype Token = Literal(len: nat) | Again(extra: nat) | Zeros(extra: nat)

  predicate WellFormed(t: Token) {
    match t
    case Literal(len) => len < 16
    case Again(extra) => extra < 4
    case Zeros(extra) => extra < 8
  }

  function TokenCode(t: Token): nat {
    match t
    case Literal(len) => len
    case Again(_) => 16
    case Zeros(_) => 17
  }

  function TokenExtra(t: Token): seq<bool> {
    match t
    case Literal(_) => []
    case Again(extra) => BitsOf(extra, 2)
    case Zeros(extra) => BitsOf(extra, 3)
  }

  /** The last token continues a repetition of the same kind. */
  predicate Chained(ts: seq<Token>) {
    |ts| >= 2 &&
    var last, prior := ts[|ts| - 1], ts[|ts| - 2];
    (last.Again? && prior.Again?) || (last.Zeros? && prior.Zeros?)
  }

  /** How often the repetition that ends here repeats, counted over its whole chain. */
  function Repeat(ts: seq<Token>): (r: nat)
    ensures ts != [] && !ts[|ts| - 1].Literal? ==> r >= 3
  {
    if ts == [] || ts[|ts| - 1].Literal? then 0
    else
      var init, last := ts[..|ts| - 1], ts[|ts| - 1];
      (if Chained(ts) then (if last.Again? then 4 else 8) * (Repeat(init) - 2) else 0) + 3 + last.extra
  }

  /** A repetition repeats 3 and its extra bits; one that goes on, four times as often as it did but two. */
  lemma RepeatOfAgain(ts: seq<Token>, e: nat)
    ensures Repeat(ts + [Again(e)]) == if ts != [] && ts[|ts| - 1].Again? then 4 * (Repeat(ts) - 2) + 3 + e else 3 + e
  {
    assert (ts + [Again(e)])[..|ts|] == ts;
  }

  /** The same for zeros, eight times. */
  lemma RepeatOfZeros(ts: seq<Token>, e: nat)
    ensures Repeat(ts + [Zeros(e)]) == if ts != [] && ts[|ts| - 1].Zeros? then 8 * (Repeat(ts) - 2) + 3 + e else 3 + e
  {
    assert (ts + [Zeros(e)])[..|ts|] == ts;
  }

  /** A chain of repetitions of one kind with these extra bits. */
  function Chain(es: seq<nat>, zeros: bool): (ts: seq<Token>)
    ensures |ts| == |es|
  {
    seq(|es|, i requires 0 <= i < |es| => if zeros then Zeros(es[i]) else Again(es[i]))
  }

  lemma ChainSnoc(es: seq<nat>, e: nat, zeros: bool)
    ensures Chain(es + [e], zeros) == Chain(es, zeros) + [if zeros then Zeros(e) else Again(e)]
    ensures Repeat(Chain(es + [e], zeros)) ==
      if es == [] then 3 + e else (if zeros then 8 else 4) * (Repeat(Chain(es, zeros)) - 2) + 3 + e
  {
    if zeros { RepeatOfZeros(Chain(es, zeros), e); } else { RepeatOfAgain(Chain(es, zeros), e); }
  }

  ghost predicate Extras(es: seq<nat>, k: nat) {
    forall i :: 0 <= i < |es| ==> es[i] < k
  }

  /** Every count from 3 on is that of a chain: its extra bits are the digits of the count less two, from 1 on. */
  lemma {:induction false} ChainFor(n: nat, zeros: bool) returns (es: seq<nat>)
    requires n >= 3
    ensures es != [] && Extras(es, if zeros then 8 else 4) && Repeat(Chain(es, zeros)) == n
    decreases n
  {
    var k := if zeros then 8 else 4;
    if n < 3 + k {
      ChainSnoc([], n - 3, zeros);
      es := [] + [n - 3];
    } else {
      var q, e := (n - 3) / k, (n - 3) % k;
      var init := ChainFor(q + 2, zeros);
      ChainSnoc(init, e, zeros);
      es := init + [e];
    }
  }

  lemma ChainLast(es: seq<nat>, zeros: bool, k: nat, n: nat)
    requires es != [] && k == (if zeros then 8 else 4) && Extras(es, k) && n == Repeat(Chain(es, zeros))
    ensures n >= 3 && es[|es| - 1] == (n - 3) % k && (|es| == 1 <==> n < 3 + k)
    ensures |es| > 1 ==> Repeat(Chain(es[..|es| - 1], zeros)) == (n - 3) / k + 2
  {
    var init, e := es[..|es| - 1], es[|es| - 1];
    assert es == init + [e];
    ChainSnoc(init, e, zeros);
    if init != [] {
      var r := Repeat(Chain(init, zeros));
      assert Chain(init, zeros) != [] && !Chain(init, zeros)[|init| - 1].Literal?;
      if zeros { DivModUnique(n - 3, 8, r - 2, e); } else { DivModUnique(n - 3, 4, r - 2, e); }
    }
  }

  /** And that of one chain only. */
  lemma {:induction false} ChainUnique(es: seq<nat>, es': seq<nat>, zeros: bool)
    requires es != [] && es' != [] && Extras(es, if zeros then 8 else 4) && Extras(es', if zeros then 8 else 4)
    requires Repeat(Chain(es, zeros)) == Repeat(Chain(es', zeros))
    ensures es == es'
    decreases |es|
  {
    var k, n := if zeros then 8 else 4, Repeat(Chain(es, zeros));
    ChainLast(es, zeros, k, n);
    ChainLast(es', zeros, k, n);
    assert es == es[..|es| - 1] + [es[|es| - 1]] && es' == es'[..|es'| - 1] + [es'[|es'| - 1]];
    if |es| > 1 { ChainUnique(es[..|es| - 1], es'[..|es'| - 1], zeros); }
  }

  /** The tokens before the chain that ends here. */
  function Base(ts: seq<Token>): (base: seq<Token>)
    requires ts != []
    ensures |base| < |ts|
  {
    if Chained(ts) then Base(ts[..|ts| - 1]) else ts[..|ts| - 1]
  }

  /** The last non-zero code length, 8 if there is none. */
  function Prev(ts: seq<Token>): nat {
    if ts == [] then 8
    else match ts[|ts| - 1]
         case Literal(len) => if len > 0 then len else Prev(ts[..|ts| - 1])
         case _ => Prev(ts[..|ts| - 1])
  }

  function Copies(v: byte, n: nat): seq<byte> {
    seq(n, _ => v)
  }

  ghost predicate AllWellFormed(ts: seq<Token>) {
    forall j :: 0 <= j < |ts| ==> WellFormed(ts[j])
  }

  lemma {:induction false} PrevRange(ts: seq<Token>)
    requires AllWellFormed(ts)
    ensures 1 <= Prev(ts) <= MAXLEN
  {
    if ts != [] {
      assert WellFormed(ts[|ts| - 1]);
      PrevRange(ts[..|ts| - 1]);
    }
  }

  /** With no code length but zeros, a repetition stands for 8; else for the last that is not zero. */
  lemma {:induction false} PrevIs(ts: seq<Token>, j: nat)
    requires j <= |ts|
    requires forall i :: j <= i < |ts| ==> ts[i].Literal? ==> ts[i].len == 0
    ensures j == 0 ==> Prev(ts) == 8
    ensures j > 0 && ts[j - 1].Literal? && ts[j - 1].len > 0 ==> Prev(ts) == ts[j - 1].len
  {
    if j < |ts| { PrevIs(ts[..|ts| - 1], j); }
  }

  function Capped(l: nat): (c: byte)
    ensures c <= MAXLEN
  {
    if l <= MAXLEN then l else 0
  }

  /** What a chain of repetitions stands for. */
  function Run(ts: seq<Token>): (v: byte)
    requires ts != []
    ensures v <= MAXLEN
  {
    if ts[|ts| - 1].Again? then Capped(Prev(ts)) else 0
  }

  /** The code lengths that tokens stand for: every chain of repetitions as one run of its nested count. */
  function Expand(ts: seq<Token>): (lens: seq<byte>)
    ensures Lengths(lens)
    decreases |ts|
  {
    if ts == [] then []
    else match ts[|ts| - 1]
         case Literal(len) => Expand(ts[..|ts| - 1]) + [Capped(len)]
         case _ => Expand(Base(ts)) + Copies(Run(ts), Repeat(ts))
  }

  /** How many lengths the last token adds to those already there. */
  function Delta(ts: seq<Token>): nat
    requires ts != [] && !ts[|ts| - 1].Literal?
  {
    if Chained(ts) then Repeat(ts) - Repeat(ts[..|ts| - 1]) else Repeat(ts)
  }

  lemma CopiesAdd(v: byte, m: nat, n: nat)
    ensures Copies(v, m) + Copies(v, n) == Copies(v, m + n)
  {
  }

  lemma ChainStep(ts: seq<Token>, init: seq<Token>)
    requires Chained(ts) && init == ts[..|ts| - 1]
    ensures Base(ts) == Base(init) && Run(ts) == Run(init) && Repeat(ts) >= Repeat(init) + 3
    ensures !init[|init| - 1].Literal?
  {
  }

  lemma ExpandRun(ts: seq<Token>)
    requires ts != [] && !ts[|ts| - 1].Literal?
    ensures Expand(ts) == Expand(Base(ts)) + Copies(Run(ts), Repeat(ts))
  {
  }

  lemma ExpandChained(ts: seq<Token>, init: seq<Token>)
    requires Chained(ts) && init == ts[..|ts| - 1]
    ensures Repeat(ts) >= Repeat(init) + 3
    ensures Expand(ts) == Expand(init) + Copies(Run(ts), Repeat(ts) - Repeat(init))
  {
    ChainStep(ts, init);
    var d: nat := Repeat(ts) - Repeat(init);
    CopiesAdd(Run(ts), Repeat(init), d);
    ExpandRun(ts);
    ExpandRun(init);
    ExpandChain(Expand(Base(ts)), Expand(init), Expand(ts), Copies(Run(ts), Repeat(init)), Copies(Run(ts), d));
  }

  lemma ExpandUnchained(ts: seq<Token>, init: seq<Token>)
    requires ts != [] && !ts[|ts| - 1].Literal? && !Chained(ts) && init == ts[..|ts| - 1]
    ensures Expand(ts) == Expand(init) + Copies(Run(ts), Repeat(ts))
  {
    ExpandRun(ts);
  }

  /** Token by token, a repetition adds the growth of its chain, at least three lengths. */
  lemma ExpandStep(ts: seq<Token>)
    requires ts != [] && !ts[|ts| - 1].Literal?
    ensures Delta(ts) >= 3 && Expand(ts) == Expand(ts[..|ts| - 1]) + Copies(Run(ts), Delta(ts))
  {
    var init := ts[..|ts| - 1];
    if Chained(ts) {
      ExpandChained(ts, init);
      assert Delta(ts) == Repeat(ts) - Repeat(init);
    } else {
      ExpandUnchained(ts, init);
      assert Delta(ts) == Repeat(ts);
    }
  }

  lemma ExpandChain(base: seq<byte>, before: seq<byte>, after: seq<byte>, run: seq<byte>, more: seq<byte>)
    requires before == base + run && after == base + (run + more)
    ensures after == before + more
  {
  }

  lemma ExpandGrows(ts: seq<Token>)
    requires ts != []
    ensures |Expand(ts)| > |Expand(ts[..|ts| - 1])|
  {
    if !ts[|ts| - 1].Literal? { ExpandStep(ts); }
  }

  /** The space the code lengths read so far have taken. */
  function Used(ts: seq<Token>): int {
    KraftSum(Expand(ts), |Expand(ts)|)
  }

  /** `space`, a 32-bit word: the budget minus what is used. */
  function Left(ts: seq<Token>): nat {
    (SPACE - Used(ts)) % TWO32
  }

  predicate Complete(size: nat, ts: seq<Token>) {
    |Expand(ts)| >= size || Left(ts) == 0
  }

  lemma {:induction false} WeightRange(l: nat)
    requires l <= MAXLEN
    ensures 0 <= Weight(l) <= 0x4000
  {
    ShlNonNegative(1, MAXLEN - l);
    if l > 0 {
      ShlOne(MAXLEN - l);
      Pow2Monotone(MAXLEN - l, 14);
      assert Pow2(8) == 256 && Pow2(14) == 0x4000;
    }
  }

  lemma {:induction false} KraftRange(lens: seq<byte>, n: nat)
    requires Lengths(lens) && n <= |lens|
    ensures 0 <= KraftSum(lens, n) <= 0x4000 * n
  {
    if n > 0 {
      KraftRange(lens, n - 1);
      WeightRange(lens[n - 1]);
    }
  }

  /** The word does not wrap for any alphabet of fewer than 2^18 symbols: it is zero when all space is used. */
  lemma LeftExactly(ts: seq<Token>)
    requires |Expand(ts)| < 0x4_0000
    ensures Left(ts) == 0 <==> Used(ts) == SPACE
    ensures Used(ts) <= SPACE ==> Left(ts) == SPACE - Used(ts)
  {
    KraftRange(Expand(ts), |Expand(ts)|);
  }

  lemma {:induction false} KraftSumPrefix(a: seq<byte>, b: seq<byte>, n: nat)
    requires Lengths(a) && Lengths(b) && n <= |a| && n <= |b| && a[..n] == b[..n]
    ensures KraftSum(a, n) == KraftSum(b, n)
  {
    if n > 0 {
      assert a[..n - 1] == a[..n][..n - 1] && b[..n - 1] == b[..n][..n - 1];
      assert a[n - 1] == a[..n][n - 1] == b[n - 1];
      KraftSumPrefix(a, b, n - 1);
    }
  }

  lemma {:induction false} KraftSumRun(lens: seq<byte>, v: byte, n: nat)
    requires Lengths(lens) && v <= MAXLEN
    ensures Lengths(lens + Copies(v, n))
    ensures KraftSum(lens + Copies(v, n), |lens| + n) ==
            KraftSum(lens, |lens|) + if v == 0 then 0 else Shl(n, MAXLEN - v)
  {
    var out := lens + Copies(v, n);
    if n == 0 {
      assert out == lens;
      ShlIsProduct(0, MAXLEN - v);
    } else {
      KraftSumRun(lens, v, n - 1);
      KraftSumPrefix(out, lens + Copies(v, n - 1), |lens| + n - 1);
      ShlSum(n - 1, 1, MAXLEN - v);
    }
  }

  /** The lengths the tree is built from: those that were read, the rest zero. */
  function FinalLengths(size: nat, ts: seq<Token>): (lens: seq<byte>)
    requires |Expand(ts)| <= size
    ensures |lens| == size && Lengths(lens)
  {
    Expand(ts) + Copies(0, size - |Expand(ts)|)
  }

  /** `space` ends at zero exactly when the final lengths use up the space. */
  lemma FinalKraft(size: nat, ts: seq<Token>)
    requires |Expand(ts)| <= size
    ensures Kraft(FinalLengths(size, ts)) == Used(ts)
    ensures size < 0x4_0000 ==> (Left(ts) == 0 <==> Kraft(FinalLengths(size, ts)) == SPACE)
  {
    KraftSumRun(Expand(ts), 0, size - |Expand(ts)|);
    KraftIsSum(FinalLengths(size, ts));
    if size < 0x4_0000 { LeftExactly(ts); }
  }

  /** The rest of a token whose code has been read. */
  function TokenAfter(code: nat, bits: seq<bool>): Parsed<Token> {
    if code < 16 then Parsed(Literal(code), bits)
    else match Field(bits, if code == 16 then 2 else 3)
         case Failed => Failed
         case Parsed(extra, rest) => Parsed(if code == 16 then Again(extra) else Zeros(extra), rest)
  }

  function NextToken(lens: seq<byte>, bits: seq<bool>): Parsed<Token> {
    match Symbol(Codebook(lens), bits)
    case Failed => Failed
    case Parsed(code, rest) => TokenAfter(code, rest)
  }

  lemma TokenAfterExactly(code: nat, bits: seq<bool>, t: Token, rest: seq<bool>)
    requires code < 18
    ensures TokenAfter(code, bits) == Parsed(t, rest) <==>
      WellFormed(t) && TokenCode(t) == code && bits == TokenExtra(t) + rest
  {
    assert Pow2(2) == 4 && Pow2(3) == 8;
    if code < 16 {
      assert [] + rest == rest;
    } else {
      var n := if code == 16 then 2 else 3;
      if !t.Literal? { FieldExactly(bits, n, t.extra, rest); }
    }
  }

  function TokenBits(lens: seq<byte>, t: Token): seq<bool>
    requires |lens| == 18
  {
    (if TokenCode(t) < 18 then CodeWord(lens, TokenCode(t)) else []) + TokenExtra(t)
  }

  predicate Sayable(lens: seq<byte>, t: Token)
    requires |lens| == 18
  {
    WellFormed(t) && lens[TokenCode(t)] > 0
  }

  lemma TokenParts(lens: seq<byte>, t: Token, rest: seq<bool>)
    requires |lens| == 18 && WellFormed(t)
    ensures TokenBits(lens, t) + rest == CodeWord(lens, TokenCode(t)) + (TokenExtra(t) + rest)
  {
  }

  lemma NextTokenFinds(lens: seq<byte>, t: Token, rest: seq<bool>)
    requires Usable(lens) && |lens| == 18 && Sayable(lens, t)
    ensures NextToken(lens, TokenBits(lens, t) + rest) == Parsed(t, rest)
  {
    TokenParts(lens, t, rest);
    SymbolExactly(lens, TokenBits(lens, t) + rest, TokenCode(t), TokenExtra(t) + rest);
    TokenAfterExactly(TokenCode(t), TokenExtra(t) + rest, t, rest);
  }

  lemma NextTokenReads(lens: seq<byte>, bits: seq<bool>, t: Token, rest: seq<bool>)
    requires Usable(lens) && |lens| == 18 && NextToken(lens, bits) == Parsed(t, rest)
    ensures Sayable(lens, t) && bits == TokenBits(lens, t) + rest
  {
    var code, more := Symbol(Codebook(lens), bits).value, Symbol(Codebook(lens), bits).rest;
    SymbolExactly(lens, bits, code, more);
    TokenAfterExactly(code, more, t, rest);
    TokenParts(lens, t, rest);
  }

  lemma SnocToken(ts: seq<Token>, t: Token)
    ensures (ts + [t])[..|ts|] == ts && |Expand(ts + [t])| > |Expand(ts)|
  {
    assert (ts + [t])[..|ts|] == ts;
    ExpandGrows(ts + [t]);
  }

  /** The second loop: tokens until all lengths are there or the space is used up. */
  function LengthTokens(bits: seq<bool>, lens: seq<byte>, size: nat, ts: seq<Token>): (p: Parsed<seq<Token>>)
    requires |Expand(ts)| <= size
    decreases size - |Expand(ts)|
  {
    if Complete(size, ts) then Parsed(ts, bits)
    else match NextToken(lens, bits)
         case Failed => Failed
         case Parsed(t, rest) =>
           SnocToken(ts, t);
           if |Expand(ts + [t])| > size then Failed else LengthTokens(rest, lens, size, ts + [t])
  }

  function SpellTokens(lens: seq<byte>, ts: seq<Token>, k: nat): seq<bool>
    requires |lens| == 18 && k <= |ts|
    decreases |ts| - k
  {
    if k == |ts| then [] else TokenBits(lens, ts[k]) + SpellTokens(lens, ts, k + 1)
  }

  ghost predicate TokensFrom(lens: seq<byte>, size: nat, ts: seq<Token>, k: nat)
    requires |lens| == 18
  {
    && |Expand(ts)| <= size && Complete(size, ts)
    && forall j :: k <= j < |ts| ==> Sayable(lens, ts[j]) && !Complete(size, ts[..j])
  }

  lemma TokensStep(lens: seq<byte>, size: nat, seen: seq<Token>, t: Token, more: seq<bool>)
    requires Usable(lens) && |lens| == 18 && !Complete(size, seen) && Sayable(lens, t) && |Expand(seen + [t])| <= size
    ensures LengthTokens(TokenBits(lens, t) + more, lens, size, seen) == LengthTokens(more, lens, size, seen + [t])
  {
    NextTokenFinds(lens, t, more);
  }

  lemma SpellTokensStep(lens: seq<byte>, ts: seq<Token>, k: nat, rest: seq<bool>)
    requires |lens| == 18 && k < |ts|
    ensures SpellTokens(lens, ts, k) + rest == TokenBits(lens, ts[k]) + (SpellTokens(lens, ts, k + 1) + rest)
  {
  }

  lemma TakeSnoc(ts: seq<Token>, k: nat)
    requires k < |ts|
    ensures ts[..k + 1] == ts[..k] + [ts[k]]
  {
  }

  lemma PartFits(lens: seq<byte>, size: nat, ts: seq<Token>, k: nat)
    requires |lens| == 18 && k <= |ts| && TokensFrom(lens, size, ts, k)
    ensures |Expand(ts[..k])| <= size
  {
    assert ts[..|ts|] == ts;
  }

  lemma {:induction false} TokensFinds(lens: seq<byte>, size: nat, ts: seq<Token>, k: nat, rest: seq<bool>)
    requires Usable(lens) && |lens| == 18 && k <= |ts| && TokensFrom(lens, size, ts, k)
    ensures |Expand(ts[..k])| <= size
    ensures LengthTokens(SpellTokens(lens, ts, k) + rest, lens, size, ts[..k]) == Parsed(ts, rest)
    decreases |ts| - k
  {
    PartFits(lens, size, ts, k);
    if k == |ts| {
      assert ts[..k] == ts && SpellTokens(lens, ts, k) + rest == rest;
    } else {
      TakeSnoc(ts, k);
      TokensFinds(lens, size, ts, k + 1, rest);
      SpellTokensStep(lens, ts, k, rest);
      TokensStep(lens, size, ts[..k], ts[k], SpellTokens(lens, ts, k + 1) + rest);
    }
  }

  lemma TokensNext(bits: seq<bool>, lens: seq<byte>, size: nat, seen: seq<Token>) returns (t: Token, more: seq<bool>)
    requires Usable(lens) && |lens| == 18 && |Expand(seen)| <= size
    requires !Complete(size, seen) && LengthTokens(bits, lens, size, seen).Parsed?
    ensures Sayable(lens, t) && bits == TokenBits(lens, t) + more
    ensures |Expand(seen)| < |Expand(seen + [t])| <= size
    ensures LengthTokens(bits, lens, size, seen) == LengthTokens(more, lens, size, seen + [t])
  {
    t, more := NextToken(lens, bits).value, NextToken(lens, bits).rest;
    NextTokenReads(lens, bits, t, more);
    SnocToken(seen, t);
  }

  lemma {:induction false} TokensReads(bits: seq<bool>, lens: seq<byte>, size: nat, seen: seq<Token>,
                                       ts: seq<Token>, rest: seq<bool>)
    requires Usable(lens) && |lens| == 18 && |Expand(seen)| <= size
    requires LengthTokens(bits, lens, size, seen) == Parsed(ts, rest)
    ensures seen <= ts && TokensFrom(lens, size, ts, |seen|) && bits == SpellTokens(lens, ts, |seen|) + rest
    decreases size - |Expand(seen)|
  {
    if Complete(size, seen) {
      assert SpellTokens(lens, seen, |seen|) == [];
    } else {
      var t, more := TokensNext(bits, lens, size, seen);
      TokensReads(more, lens, size, seen + [t], ts, rest);
      TokensBack(lens, size, seen, t, ts);
      SpellTokensStep(lens, ts, |seen|, rest);
    }
  }

  lemma TokensBack(lens: seq<byte>, size: nat, seen: seq<Token>, t: Token, ts: seq<Token>)
    requires |lens| == 18 && seen + [t] <= ts && Sayable(lens, t) && !Complete(size, seen)
    requires TokensFrom(lens, size, ts, |seen| + 1)
    ensures seen <= ts && ts[|seen|] == t && TokensFrom(lens, size, ts, |seen|)
  {
    assert ts[..|seen|] == seen && ts[|seen|] == (seen + [t])[|seen|];
  }
}