/**
  `IMTF` and `DecodeContextMap` of Compression/src/Brotli.cpp (section 7.3 of RFC 7932).
*/
module ContextMaps {
  import opened Words
  import opened BitStreams
  import opened PrefixCodes
  import opened CanonicalCodes
  import opened CodeLengths
  import opened HuffmanCodes
  import opened HuffmanDecoder

  // --- move to front --------------------------------------------------------------------------------------

  /** A queue of all 256 byte values. */
  type Queue = q: seq<byte> | |q| == 256 witness seq(256, _ => 0)

  function Identity(): (q: Queue) {
    seq(256, i requires 0 <= i < 256 => i)
  }

  /** Element `idx` moves to the front. */
  function Front(q: Queue, idx: byte): (r: Queue) {
    [q[idx]] + q[..idx] + q[idx + 1..]
  }

  /** Indices to values. */
  function Inverse(data: seq<byte>, q: Queue): (out: seq<byte>)
    ensures |out| == |data|
  {
    if data == [] then [] else [q[data[0]]] + Inverse(data[1..], Front(q, data[0]))
  }

  function IndexOf(q: seq<byte>, v: byte): (i: nat)
    requires v in q
    ensures i < |q| && q[i] == v
  {
    if q[0] == v then 0 else 1 + IndexOf(q[1..], v)
  }

  ghost predicate Distinct(q: seq<byte>) {
    forall i, j :: 0 <= i < |q| && 0 <= j < |q| && i != j ==> q[i] != q[j]
  }

  ghost predicate Permutation(q: seq<byte>) {
    Distinct(q) && forall v: byte :: v in q
  }

  lemma IdentityIsPermutation()
    ensures Permutation(Identity())
  {
    forall v: byte ensures v in Identity() { assert Identity()[v] == v; }
  }

  lemma FrontAt(q: Queue, idx: byte, i: nat)
    requires i < 256
    ensures Front(q, idx)[i] == if i == 0 then q[idx] else if i <= idx then q[i - 1] else q[i]
  {
  }

  /** The queue stays a permutation. */
  lemma FrontKeeps(q: Queue, idx: byte)
    requires Permutation(q)
    ensures Permutation(Front(q, idx))
  {
    var r := Front(q, idx);
    forall i, j | 0 <= i < 256 && 0 <= j < 256 && i != j ensures r[i] != r[j] {
      FrontAt(q, idx, i);
      FrontAt(q, idx, j);
    }
    forall v: byte ensures v in r {
      assert v in q;
      var i: nat :| i < |q| && q[i] == v;
      assert r[if i == idx then 0 else if i < idx then i + 1 else i] == v;
    }
  }

  /** Values to indices: the transform that `IMTF` inverts. */
  ghost function MoveToFront(values: seq<byte>, q: Queue): (out: seq<byte>)
    requires Permutation(q)
    ensures |out| == |values|
  {
    if values == [] then []
    else
      var idx := IndexOf(q, values[0]);
      FrontKeeps(q, idx);
      [idx] + MoveToFront(values[1..], Front(q, idx))
  }

  lemma {:induction false} InverseUndoes(values: seq<byte>, q: Queue)
    requires Permutation(q)
    ensures Inverse(MoveToFront(values, q), q) == values
  {
    if values != [] {
      var idx := IndexOf(q, values[0]);
      FrontKeeps(q, idx);
      InverseUndoes(values[1..], Front(q, idx));
      assert MoveToFront(values, q)[1..] == MoveToFront(values[1..], Front(q, idx));
    }
  }

  lemma {:induction false} UndoesInverse(data: seq<byte>, q: Queue)
    requires Permutation(q)
    ensures MoveToFront(Inverse(data, q), q) == data
  {
    if data != [] {
      var v := q[data[0]];
      assert IndexOf(q, v) == data[0];
      FrontKeeps(q, data[0]);
      UndoesInverse(data[1..], Front(q, data[0]));
      assert Inverse(data, q)[1..] == Inverse(data[1..], Front(q, data[0]));
    }
  }

  /** Between the identity queues of both ends, the transforms undo each other on every sequence. */
  lemma TransformsInvert(data: seq<byte>)
    ensures Permutation(Identity())
    ensures Inverse(MoveToFront(data, Identity()), Identity()) == data
    ensures MoveToFront(Inverse(data, Identity()), Identity()) == data
  {
    IdentityIsPermutation();
    InverseUndoes(data, Identity());
    UndoesInverse(data, Identity());
  }

  /** The first `n` places hold values below `n` only. */
  predicate Closed(q: Queue, n: nat) {
    n <= 256 && forall i :: 0 <= i < n ==> q[i] < n
  }

  /** Indices below `n` give values below `n`. */
  lemma {:induction false} InverseBelow(data: seq<byte>, q: Queue, n: nat)
    requires Closed(q, n) && forall i :: 0 <= i < |data| ==> data[i] < n
    ensures forall i :: 0 <= i < |data| ==> Inverse(data, q)[i] < n
  {
    if data != [] { InverseBelow(data[1..], Front(q, data[0]), n); }
  }

  /** The inner loop of `IMTF` and the store behind it. */
  method MoveFront(que: array<byte>, idx: byte)
    requires que.Length == 256
    modifies que
    ensures que[..] == Front(old(que[..]), idx)
  {
    ghost var q: Queue := que[..];
    var val := que[idx];
    var j: nat := idx;
    while j > 0
      invariant j <= idx
      invariant forall k :: 0 <= k <= j ==> que[k] == q[k]
      invariant forall k :: j < k <= idx ==> que[k] == q[k - 1]
      invariant forall k :: idx < k < 256 ==> que[k] == q[k]
    {
      que[j] := que[j - 1];
      j := j - 1;
    }
    que[0] := val;
    forall i | 0 <= i < 256 ensures que[i] == Front(q, idx)[i] { FrontAt(q, idx, i); }
  }

  lemma FrontZero(q: Queue)
    ensures Front(q, 0) == q
  {
  }

  lemma InverseStep(done: seq<byte>, left: seq<byte>, q: Queue, whole: seq<byte>)
    requires left != [] && whole == done + Inverse(left, q)
    ensures whole == (done + [q[left[0]]]) + Inverse(left[1..], Front(q, left[0]))
  {
  }

  method IMTF(data: array<byte>)
    modifies data
    ensures data[..] == Inverse(old(data[..]), Identity())
  {
    var que := new byte[256](i requires 0 <= i < 256 => i);
    ghost var input, whole := data[..], Inverse(data[..], Identity());
    assert que[..] == Identity();
    for i := 0 to data.Length
      invariant que.Length == 256 && fresh(que) && |input| == data.Length
      invariant data[i..] == input[i..]
      invariant whole == data[..i] + Inverse(data[i..], que[..])
    {
      var idx := data[i];
      var val := que[idx];
      ghost var left := data[i..];
      InverseStep(data[..i], left, que[..], whole);
      ghost var done := data[..i];
      data[i] := val;
      assert data[..i + 1] == done + [val] && left[1..] == data[i + 1..];
      FrontZero(que[..]);
      if idx != 0 {
        MoveFront(que, idx);
      }
    }
  }

  // --- the context map ------------------------------------------------------------------------------------

  /** The number of a tree, or a run of zeros of length 2^code + extra. */
  datatype Item = TreeNumber(t: nat) | ZeroRun(code: nat, extra: nat)

  function RunLength(code: nat, extra: nat): (n: nat)
    ensures n > 0
  {
    ShlOne(code);
    Shl(1, code) + extra
  }

  /** Every run from 1 on is written in exactly one way: the code is its highest bit, the extra bits are the rest. */
  lemma RunLengthsTile(n: nat, code: nat, extra: nat)
    requires n > 0
    ensures extra < Pow2(code) && RunLength(code, extra) == n <==> code == BitLength(n) - 1 && extra == n - Pow2(code)
  {
    ShlOne(code);
    BitLengthBounds(n);
    var k := BitLength(n);
    assert Pow2(k) == 2 * Pow2(k - 1);
    if extra < Pow2(code) && RunLength(code, extra) == n { BitLengthUnique(n, code + 1); }
  }

  function Cells(item: Item): (cells: seq<byte>)
    ensures |cells| > 0
  {
    match item
    case TreeNumber(t) => [t % 256]
    case ZeroRun(code, extra) => Copies(0, RunLength(code, extra))
  }

  function Contents(items: seq<Item>): seq<byte> {
    if items == [] then [] else Contents(items[..|items| - 1]) + Cells(items[|items| - 1])
  }

  function NextItem(bits: seq<bool>, book: seq<Entry>, relmax: nat): Parsed<Item> {
    match Symbol(book, bits)
    case Failed => Failed
    case Parsed(code, rest) =>
      if code > relmax then Parsed(TreeNumber(code - relmax), rest)
      else match Field(rest, code)
           case Failed => Failed
           case Parsed(extra, rest') => Parsed(ZeroRun(code, extra), rest')
  }

  /** A symbol above RELMAX is a tree number less RELMAX, cut to a byte, in one cell. */
  lemma CellOfSymbol(bits: seq<bool>, book: seq<Entry>, relmax: nat, symbol: nat, rest: seq<bool>)
    requires Symbol(book, bits) == Parsed(symbol, rest) && symbol > relmax
    ensures var p := NextItem(bits, book, relmax);
      p.Parsed? && p.rest == rest && Cells(p.value) == [(symbol - relmax) % 256]
  {
  }

  /** Any other symbol is followed by as many extra bits as it says; it is 2^symbol zeros and that many more. */
  lemma ZerosOfSymbol(bits: seq<bool>, book: seq<Entry>, relmax: nat, symbol: nat, extra: nat, more: seq<bool>)
    requires Symbol(book, bits) == Parsed(symbol, BitsOf(extra, symbol) + more)
    requires symbol <= relmax && symbol <= 64 && extra < Pow2(symbol)
    ensures var p := NextItem(bits, book, relmax);
      p.Parsed? && p.rest == more && |Cells(p.value)| == Pow2(symbol) + extra
      && forall i :: 0 <= i < |Cells(p.value)| ==> Cells(p.value)[i] == 0
  {
    FieldExactly(BitsOf(extra, symbol) + more, symbol, extra, more);
    ShlOne(symbol);
  }

  /** The loop of `DecodeContextMap`: items until the map is full; an item that would overflow it stops the program. */
  function ReadItems(bits: seq<bool>, book: seq<Entry>, relmax: nat, size: nat, seen: seq<byte>): (p: Parsed<seq<byte>>)
    requires |seen| <= size
    ensures p.Parsed? ==> |p.value| == size
    decreases size - |seen|
  {
    if |seen| == size then Parsed(seen, bits)
    else match NextItem(bits, book, relmax)
         case Failed => Failed
         case Parsed(item, rest) =>
           if |seen + Cells(item)| > size then Failed else ReadItems(rest, book, relmax, size, seen + Cells(item))
  }

  /** How an item is written with a complex code. */
  function ItemCode(item: Item, relmax: nat): nat {
    match item
    case TreeNumber(t) => relmax + t
    case ZeroRun(code, _) => code
  }

  function ItemExtra(item: Item): seq<bool> {
    match item
    case TreeNumber(_) => []
    case ZeroRun(code, extra) => BitsOf(extra, code)
  }

  predicate Writable(lens: seq<byte>, relmax: nat, item: Item) {
    && ItemCode(item, relmax) < |lens| && lens[ItemCode(item, relmax)] > 0
    && match item
       case TreeNumber(t) => t > 0
       case ZeroRun(code, extra) => code <= relmax && extra < Pow2(code)
  }

  function SpellItem(lens: seq<byte>, relmax: nat, item: Item): seq<bool> {
    (if ItemCode(item, relmax) < |lens| then CodeWord(lens, ItemCode(item, relmax)) else []) + ItemExtra(item)
  }

  function SpellItems(lens: seq<byte>, relmax: nat, items: seq<Item>, k: nat): seq<bool>
    requires k <= |items|
    decreases |items| - k
  {
    if k == |items| then [] else SpellItem(lens, relmax, items[k]) + SpellItems(lens, relmax, items, k + 1)
  }

  lemma NextItemFinds(lens: seq<byte>, relmax: nat, item: Item, rest: seq<bool>)
    requires Usable(lens) && relmax <= 16 && Writable(lens, relmax, item)
    ensures NextItem(SpellItem(lens, relmax, item) + rest, Codebook(lens), relmax) == Parsed(item, rest)
  {
    var code, more := ItemCode(item, relmax), ItemExtra(item) + rest;
    Regroup(CodeWord(lens, code), ItemExtra(item), rest);
    SymbolExactly(lens, SpellItem(lens, relmax, item) + rest, code, more);
    if item.ZeroRun? { FieldExactly(more, code, item.extra, rest); } else { assert more == rest; }
  }

  lemma {:induction false} ContentsGrow(items: seq<Item>, k: nat)
    requires k <= |items|
    ensures |Contents(items[..k])| <= |Contents(items)|
    ensures k < |items| ==> |Contents(items[..k])| < |Contents(items)|
    decreases |items| - k
  {
    if k < |items| {
      assert items[..k + 1][..k] == items[..k];
      ContentsGrow(items, k + 1);
    } else {
      assert items[..k] == items;
    }
  }

  lemma ItemStep(lens: seq<byte>, relmax: nat, item: Item, more: seq<bool>, size: nat, seen: seq<byte>)
    requires Usable(lens) && relmax <= 16 && Writable(lens, relmax, item) && |seen + Cells(item)| <= size
    ensures ReadItems(SpellItem(lens, relmax, item) + more, Codebook(lens), relmax, size, seen)
         == ReadItems(more, Codebook(lens), relmax, size, seen + Cells(item))
  {
    NextItemFinds(lens, relmax, item, more);
  }

  lemma SpellItemsStep(lens: seq<byte>, relmax: nat, items: seq<Item>, k: nat, rest: seq<bool>)
    requires k < |items|
    ensures SpellItems(lens, relmax, items, k) + rest ==
            SpellItem(lens, relmax, items[k]) + (SpellItems(lens, relmax, items, k + 1) + rest)
    ensures Contents(items[..k + 1]) == Contents(items[..k]) + Cells(items[k])
  {
    assert items[..k + 1][..k] == items[..k];
  }

  lemma ItemsDone(lens: seq<byte>, relmax: nat, items: seq<Item>, rest: seq<bool>)
    ensures items[..|items|] == items
    ensures ReadItems(SpellItems(lens, relmax, items, |items|) + rest, Codebook(lens), relmax, |Contents(items)|,
        Contents(items))
         == Parsed(Contents(items), rest)
  {
    assert items[..|items|] == items && SpellItems(lens, relmax, items, |items|) + rest == rest;
  }

  /** Reading the spelling of a context map gives its contents, and leaves what follows. */
  lemma {:induction false} ItemsFind(lens: seq<byte>, relmax: nat, items: seq<Item>, k: nat, rest: seq<bool>)
    requires Usable(lens) && relmax <= 16 && k <= |items|
    requires forall j :: k <= j < |items| ==> Writable(lens, relmax, items[j])
    ensures |Contents(items[..k])| <= |Contents(items)|
    ensures ReadItems(SpellItems(lens, relmax, items, k) + rest, Codebook(lens), relmax, |Contents(items)|,
        Contents(items[..k]))
         == Parsed(Contents(items), rest)
    decreases |items| - k
  {
    ContentsGrow(items, k);
    if k == |items| {
      ItemsDone(lens, relmax, items, rest);
    } else {
      ItemsFind(lens, relmax, items, k + 1, rest);
      ContentsGrow(items, k + 1);
      SpellItemsStep(lens, relmax, items, k, rest);
      ItemStep(lens, relmax, items[k], SpellItems(lens, relmax, items, k + 1) + rest, |Contents(items)|,
          Contents(items[..k]));
    }
  }

  lemma NextItemReads(bits: seq<bool>, lens: seq<byte>, relmax: nat, item: Item, rest: seq<bool>)
    requires Usable(lens) && relmax <= 16 && NextItem(bits, Codebook(lens), relmax) == Parsed(item, rest)
    ensures Writable(lens, relmax, item) && bits == SpellItem(lens, relmax, item) + rest
  {
    var code, more := Symbol(Codebook(lens), bits).value, Symbol(Codebook(lens), bits).rest;
    SymbolExactly(lens, bits, code, more);
    if code <= relmax {
      var extra := Field(more, code).value;
      FieldExactly(more, code, extra, rest);
      Regroup(CodeWord(lens, code), BitsOf(extra, code), rest);
    } else {
      assert SpellItem(lens, relmax, item) == CodeWord(lens, code);
    }
  }

  lemma MoreItems(lens: seq<byte>, relmax: nat, seen: seq<Item>, item: Item, items: seq<Item>, rest: seq<bool>)
    requires seen + [item] <= items
    ensures seen <= items && items[|seen|] == item && Contents(seen + [item]) == Contents(seen) + Cells(item)
    ensures SpellItems(lens, relmax, items, |seen|) + rest ==
            SpellItem(lens, relmax, item) + (SpellItems(lens, relmax, items, |seen| + 1) + rest)
  {
    assert items[|seen|] == (seen + [item])[|seen|];
    assert (seen + [item])[..|seen|] == seen;
    Regroup(SpellItem(lens, relmax, item), SpellItems(lens, relmax, items, |seen| + 1), rest);
  }

  lemma {:induction false} ItemsRead(bits: seq<bool>, lens: seq<byte>, relmax: nat, size: nat, seen: seq<Item>,
      cells: seq<byte>, rest: seq<bool>) returns (items: seq<Item>)
    requires Usable(lens) && relmax <= 16 && |Contents(seen)| <= size
    requires ReadItems(bits, Codebook(lens), relmax, size, Contents(seen)) == Parsed(cells, rest)
    ensures seen <= items && Contents(items) == cells
    ensures forall j :: |seen| <= j < |items| ==> Writable(lens, relmax, items[j])
    ensures bits == SpellItems(lens, relmax, items, |seen|) + rest
    decreases size - |Contents(seen)|
  {
    if |Contents(seen)| == size {
      items := seen;
    } else {
      var next := NextItem(bits, Codebook(lens), relmax);
      NextItemReads(bits, lens, relmax, next.value, next.rest);
      MoreItems(lens, relmax, seen, next.value, seen + [next.value], rest);
      items := ItemsRead(next.rest, lens, relmax, size, seen + [next.value], cells, rest);
      MoreItems(lens, relmax, seen, next.value, items, rest);
    }
  }

  /** `bits` are a spelling of these cells with `rest` behind it. */
  ghost predicate SpellsCells(bits: seq<bool>, lens: seq<byte>, relmax: nat, cells: seq<byte>, rest: seq<bool>) {
    exists items: seq<Item> ::
      && Contents(items) == cells && bits == SpellItems(lens, relmax, items, 0) + rest
      && forall j :: 0 <= j < |items| ==> Writable(lens, relmax, items[j])
  }

  /** The cells of a map are read from a spelling of them and from nothing else, and what follows is left unread. */
  lemma ItemsExactly(bits: seq<bool>, lens: seq<byte>, relmax: nat, size: nat, cells: seq<byte>, rest: seq<bool>)
    requires Usable(lens) && relmax <= 16
    ensures ReadItems(bits, Codebook(lens), relmax, size, []) == Parsed(cells, rest) <==>
      |cells| == size && SpellsCells(bits, lens, relmax, cells, rest)
  {
    if ReadItems(bits, Codebook(lens), relmax, size, []) == Parsed(cells, rest) {
      var items := ItemsRead(bits, lens, relmax, size, [], cells, rest);
    }
    if |cells| == size && SpellsCells(bits, lens, relmax, cells, rest) {
      var items: seq<Item> :|
        && Contents(items) == cells && bits == SpellItems(lens, relmax, items, 0) + rest
        && forall j :: 0 <= j < |items| ==> Writable(lens, relmax, items[j]);
      ItemsFind(lens, relmax, items, 0, rest);
      assert items[..0] == [];
    }
  }

  // --- the numbers in a map -------------------------------------------------------------------------------

  /** What a symbol means: a run, or a number that is cut to a byte and then names one of the trees. */
  predicate MeansTree(symbol: nat, relmax: nat, trees: nat) {
    symbol <= relmax || (symbol - relmax) % 256 < trees
  }

  ghost predicate AllMeanTrees(book: seq<Entry>, relmax: nat, trees: nat) {
    forall i :: 0 <= i < |book| ==> MeansTree(book[i].value, relmax, trees)
  }

  /** Every entry is the number of a tree. */
  predicate NamesTrees(m: seq<byte>, trees: nat) {
    forall j :: 0 <= j < |m| ==> m[j] < trees
  }

  lemma {:induction false} ReachValue(shape: Shape, word: Path, k: nat, p: Path)
    requires k <= |word| && p in Reach(shape, word, k)
    ensures Reach(shape, word, k)[p] == if p in shape then shape[p] else 0
  {
    ReachDomain(shape, word, k, p);
    if k > 0 && p in Reach(shape, word, k - 1) { ReachValue(shape, word, k - 1, p); }
  }

  /** Whatever the words of a code, its tree holds its values, and zeros. */
  lemma {:induction false} ValueMeansTree(book: seq<Entry>, relmax: nat, trees: nat, p: Path)
    requires AllMeanTrees(book, relmax, trees) && p in ShapeOf(book)
    ensures MeansTree(ShapeOf(book)[p], relmax, trees)
  {
    if book != [] {
      var n := |book| - 1;
      var init, word := ShapeOf(book[..n]), book[n].word;
      if p != word {
        ReachDomain(init, word, |word|, p);
        ReachValue(init, word, |word|, p);
        if p in init { ValueMeansTree(book[..n], relmax, trees, p); }
      }
    }
  }

  lemma SymbolMeansTree(bits: seq<bool>, book: seq<Entry>, relmax: nat, trees: nat)
    requires AllMeanTrees(book, relmax, trees) && Symbol(book, bits).Parsed?
    ensures MeansTree(Symbol(book, bits).value, relmax, trees)
  {
    ShapeDomain(book, []);
    WalkReads(ShapeOf(book), [], bits);
    ValueMeansTree(book, relmax, trees, Walk(ShapeOf(book), [], bits).path);
  }

  lemma {:induction false} ItemsNameTrees(bits: seq<bool>, book: seq<Entry>, relmax: nat, size: nat, seen: seq<byte>,
      trees: nat)
    requires |seen| <= size && 0 < trees && AllMeanTrees(book, relmax, trees) && NamesTrees(seen, trees)
    ensures var p := ReadItems(bits, book, relmax, size, seen); p.Parsed? ==> NamesTrees(p.value, trees)
    decreases size - |seen|
  {
    if |seen| < size && NextItem(bits, book, relmax).Parsed? {
      var item, rest := NextItem(bits, book, relmax).value, NextItem(bits, book, relmax).rest;
      SymbolMeansTree(bits, book, relmax, trees);
      if |seen + Cells(item)| <= size { ItemsNameTrees(rest, book, relmax, size, seen + Cells(item), trees); }
    }
  }

  /** The map before the transform that may follow it, and the transform. */
  function MapTail(cells: seq<byte>, bits: seq<bool>): Parsed<seq<byte>> {
    match Field(bits, 1)
    case Failed => Failed
    case Parsed(flag, rest) => Parsed(if flag != 0 then Inverse(cells, Identity()) else cells, rest)
  }

  /** The map behind the description of its code. */
  function DescribedMap(bits: seq<bool>, book: seq<Entry>, relmax: nat, size: nat): Parsed<seq<byte>> {
    match ReadItems(bits, book, relmax, size, [])
    case Failed => Failed
    case Parsed(cells, rest) => MapTail(cells, rest)
  }

  /** If all symbols mean trees, so does every entry of the finished map, whatever the bits. */
  lemma EntriesAreTrees(bits: seq<bool>, book: seq<Entry>, relmax: nat, size: nat, trees: nat)
    requires 0 < trees <= 256 && AllMeanTrees(book, relmax, trees)
    ensures var p := DescribedMap(bits, book, relmax, size);
      p.Parsed? ==> |p.value| == size && NamesTrees(p.value, trees)
  {
    ItemsNameTrees(bits, book, relmax, size, [], trees);
    var p := ReadItems(bits, book, relmax, size, []);
    if p.Parsed? { InverseBelow(p.value, Identity(), trees); }
  }

  /** All maps that can be written with one code. */
  ghost predicate AllNameTrees(book: seq<Entry>, relmax: nat, size: nat, trees: nat) {
    forall bits ::
      DescribedMap(bits, book, relmax, size).Parsed? ==> NamesTrees(DescribedMap(bits, book, relmax, size).value, trees)
  }

  lemma MeaningNamesTrees(book: seq<Entry>, relmax: nat, size: nat, trees: nat)
    requires 0 < trees <= 256 && AllMeanTrees(book, relmax, trees)
    ensures AllNameTrees(book, relmax, size, trees)
  {
    forall bits | DescribedMap(bits, book, relmax, size).Parsed?
      ensures NamesTrees(DescribedMap(bits, book, relmax, size).value, trees)
    {
      EntriesAreTrees(bits, book, relmax, size, trees);
    }
  }

  /** Lengths never name a symbol outside their alphabet. */
  lemma LengthsMeanTrees(lens: seq<byte>, relmax: nat, trees: nat)
    requires Lengths(lens) && |lens| == relmax + trees && 0 < trees <= 256
    ensures AllMeanTrees(Codebook(lens), relmax, trees)
  {
    forall i | 0 <= i < |Codebook(lens)| ensures MeansTree(Codebook(lens)[i].value, relmax, trees) {
      if Symbols(lens, |lens|) == 1 { LastIsSymbol(lens, |lens|); } else { BookEntry(lens, |lens|, i); }
      assert Codebook(lens)[i].value < |lens|;
    }
  }

  // --- a symbol that means no tree ------------------------------------------------------------------------

  /** One word `n` times. */
  function Repeated(word: Path, n: nat): seq<bool> {
    if n == 0 then [] else word + Repeated(word, n - 1)
  }

  lemma OneNumber(book: seq<Entry>, i: nat, relmax: nat, rest: seq<bool>)
    requires PrefixFree(book) && i < |book| && book[i].value > relmax
    ensures NextItem(book[i].word + rest, book, relmax) == Parsed(TreeNumber(book[i].value - relmax), rest)
  {
    SymbolFinds(book, i, rest);
  }

  /** The word of one symbol, as often as the map has entries, fills it with the number of that symbol. */
  lemma {:induction false} RepeatedFills(book: seq<Entry>, i: nat, relmax: nat, size: nat, n: nat, rest: seq<bool>)
    requires PrefixFree(book) && i < |book| && book[i].value > relmax && n <= size
    ensures var c := (book[i].value - relmax) % 256;
      ReadItems(Repeated(book[i].word, n) + rest, book, relmax, size, Copies(c, size - n))
        == Parsed(Copies(c, size), rest)
    decreases n
  {
    var c := (book[i].value - relmax) % 256;
    if n == 0 {
      assert Repeated(book[i].word, n) + rest == rest;
    } else {
      var more := Repeated(book[i].word, n - 1) + rest;
      Regroup(book[i].word, Repeated(book[i].word, n - 1), rest);
      OneNumber(book, i, relmax, more);
      assert Copies(c, size - n) + [c] == Copies(c, size - (n - 1));
      RepeatedFills(book, i, relmax, size, n - 1, rest);
    }
  }

  lemma NoTransform(cells: seq<byte>)
    ensures MapTail(cells, [false]) == Parsed(cells, [])
  {
    assert BitsOf(0, 1) == [false] && Pow2(1) == 2;
    assert [false] == BitsOf(0, 1) + [];
    FieldExactly([false], 1, 0, []);
  }

  lemma StrayEntries(book: seq<Entry>, i: nat, relmax: nat, size: nat)
    requires PrefixFree(book) && i < |book| && book[i].value > relmax
    ensures DescribedMap(Repeated(book[i].word, size) + [false], book, relmax, size)
         == Parsed(Copies((book[i].value - relmax) % 256, size), [])
  {
    var c := (book[i].value - relmax) % 256;
    RepeatedFills(book, i, relmax, size, size, [false]);
    assert Copies(c, 0) == [];
    NoTransform(Copies(c, size));
  }

  method FillZeros(context: array<byte>, i: nat, n: nat)
    requires i + n <= context.Length
    modifies context
    ensures context[..] == old(context[..i]) + Copies(0, n) + old(context[i + n..])
  {
    for k := 0 to n
      invariant context[..] == old(context[..i]) + Copies(0, k) + old(context[i + k..])
    {
      context[i + k] := 0;
    }
  }

  /** A code and, for a run, its extra bits. */
  method ReadItem(reader: NibbleReader, huffman: Huffman, ghost at: map<Path, Huffman>, ghost book: seq<Entry>,
      relmax: nat)
    returns (ok: bool, item: Item)
    requires reader.Valid() && IsTree(huffman, at, book)
    modifies reader`position
    ensures reader.Valid()
    ensures ok <==> NextItem(old(reader.Unread()), book, relmax).Parsed?
    ensures ok ==> NextItem(old(reader.Unread()), book, relmax) == Parsed(item, reader.Unread())
  {
    var code, extra;
    ok, code := DecodeSymbol(huffman, at, book, reader);
    item := ZeroRun(code, 0);
    if ok && code > relmax {
      item := TreeNumber(code - relmax);
    } else if ok {
      ok, extra := ReadField(reader, code);
      item := ZeroRun(code, extra);
    }
  }

  /** One turn of the loop over the map: the item's cells are stored if they fit. */
  method StoreItem(item: Item, context: array<byte>, i: nat) returns (ok: bool, i': nat)
    requires i < context.Length
    modifies context
    ensures ok <==> i + |Cells(item)| <= context.Length
    ensures ok ==> i' == i + |Cells(item)| && context[..i'] == old(context[..i]) + Cells(item)
    ensures ok ==> match item
      case TreeNumber(t) => i' == i + 1 && context[i] == t % 256
      case ZeroRun(code, extra) => i' == i + Pow2(code) + extra && forall j :: i <= j < i' ==> context[j] == 0
  {
    match item
    case TreeNumber(t) =>
      context[i] := t % 256;
      return true, i + 1;
    case ZeroRun(code, extra) =>
      ShlOne(code);
      var rep := RunLength(code, extra);
      if i + rep > context.Length {
        return false, i;
      }
      FillZeros(context, i, rep);
      return true, i + rep;
  }

  /** The loop over the map. */
  method ReadMap(reader: NibbleReader, huffman: Huffman, ghost at: map<Path, Huffman>, ghost book: seq<Entry>,
                 relmax: nat, context: array<byte>) returns (ok: bool)
    requires reader.Valid() && IsTree(huffman, at, book)
    modifies reader`position, context
    ensures reader.Valid()
    ensures ok <==> ReadItems(old(reader.Unread()), book, relmax, context.Length, []).Parsed?
    ensures ok ==>
      ReadItems(old(reader.Unread()), book, relmax, context.Length, []) == Parsed(context[..], reader.Unread())
  {
    ghost var bits := reader.Unread();
    var i: nat := 0;
    while i < context.Length
      invariant i <= context.Length && reader.Valid() && IsTree(huffman, at, book)
      invariant ReadItems(bits, book, relmax, context.Length, [])
             == ReadItems(reader.Unread(), book, relmax, context.Length, context[..i])
      decreases context.Length - i
    {
      var item;
      ok, item := ReadItem(reader, huffman, at, book, relmax);
      if !ok {
        return;
      }
      ok, i := StoreItem(item, context, i);
      if !ok {
        return;
      }
    }
    assert context[..i] == context[..];
    ok := true;
  }

  /** The length of the longest run, as a code. */
  function RunMax(bits: seq<bool>): Parsed<nat> {
    match Field(bits, 1)
    case Failed => Failed
    case Parsed(b, rest) =>
      if b == 0 then Parsed(0, rest)
      else match Field(rest, 4)
           case Failed => Failed
           case Parsed(n, rest') => Parsed(n + 1, rest')
  }

  lemma RunMaxBelow(bits: seq<bool>)
    requires RunMax(bits).Parsed?
    ensures RunMax(bits).value <= 16
  {
    assert Pow2(4) == 16;
    var b, rest := Field(bits, 1).value, Field(bits, 1).rest;
    if b != 0 { FieldExactly(rest, 4, Field(rest, 4).value, Field(rest, 4).rest); }
  }

  /** No run limit is one bit; the limits 1 to 16 are a bit and four more. */
  lemma RunMaxExactly(bits: seq<bool>, relmax: nat, rest: seq<bool>)
    ensures RunMax(bits) == Parsed(relmax, rest) <==>
      (relmax == 0 && bits == [false] + rest)
      || (1 <= relmax <= 16 && bits == [true] + (BitsOf(relmax - 1, 4) + rest))
  {
    OneBitField(bits);
    assert Pow2(4) == 16;
    if Field(bits, 1).Parsed? {
      var b, more := Field(bits, 1).value, Field(bits, 1).rest;
      if b == 1 && relmax > 0 { FieldExactly(more, 4, relmax - 1, rest); }
      if b == 1 && Field(more, 4).Parsed? { FieldExactly(more, 4, Field(more, 4).value, Field(more, 4).rest); }
    }
  }

  lemma OneBitField(bits: seq<bool>)
    ensures bits == [] <==> Field(bits, 1).Failed?
    ensures bits != [] ==> Field(bits, 1) == Parsed(if bits[0] then 1 else 0, bits[1..])
    ensures bits != [] ==> bits == [bits[0]] + bits[1..]
  {
    TakeIsNumber(bits, 1);
    assert bits != [] ==> bits[..1] == [bits[0]];
    if bits != [] { NumberCons(bits[..1]); }
  }

  method ReadRunMax(reader: NibbleReader) returns (ok: bool, relmax: nat)
    requires reader.Valid()
    modifies reader`position
    ensures reader.Valid()
    ensures ok <==> RunMax(old(reader.Unread())).Parsed?
    ensures ok ==> RunMax(old(reader.Unread())) == Parsed(relmax, reader.Unread())
  {
    ok, relmax := ReadField(reader, 1);
    if ok && relmax != 0 {
      ok, relmax := ReadField(reader, 4);
      relmax := relmax + 1;
    }
  }

  method DecodeDescribedMap(reader: NibbleReader, huffman: Huffman,
                            ghost at: map<Path, Huffman>, ghost book: seq<Entry>, relmax: nat, context: array<byte>)
    returns (ok: bool)
    requires reader.Valid() && IsTree(huffman, at, book)
    modifies reader`position, context
    ensures reader.Valid()
    ensures ok <==> DescribedMap(old(reader.Unread()), book, relmax, context.Length).Parsed?
    ensures ok ==>
      DescribedMap(old(reader.Unread()), book, relmax, context.Length) == Parsed(context[..], reader.Unread())
  {
    ok := ReadMap(reader, huffman, at, book, relmax, context);
    if ok {
      var flag;
      ok, flag := ReadField(reader, 1);
      if ok && flag != 0 {
        IMTF(context);
      }
    }
  }

  /** The code book of the description that comes next. */
  ghost function NextBook(bits: seq<bool>, size: nat): Parsed<seq<Entry>>
    requires size < TWO64
  {
    match Describe(bits, size)
    case Failed => Failed
    case Parsed(d, rest) =>
      DescribeReads(bits, size, d, rest);
      Parsed(BookOf(d, size), rest)
  }

  method DecodeNextBook(reader: NibbleReader, size: nat)
    returns (ok: bool, huffman: Huffman?, ghost at: map<Path, Huffman>, ghost book: seq<Entry>)
    requires reader.Valid() && size < TWO64
    modifies reader`position
    ensures reader.Valid()
    ensures ok <==> NextBook(old(reader.Unread()), size).Parsed?
    ensures ok ==>
      && NextBook(old(reader.Unread()), size) == Parsed(book, reader.Unread())
      && huffman != null && IsTree(huffman, at, book) && fresh(at.Values)
  {
    ghost var d;
    ok, huffman, at, d := DecodeHuffman(reader, size);
    book := if ok then BookOf(d, size) else [];
  }

  /** The map behind its run limit. */
  ghost function CodedMap(bits: seq<bool>, size: nat, trees: nat, relmax: nat): Parsed<seq<byte>>
    requires relmax + trees < TWO64
  {
    match NextBook(bits, relmax + trees)
    case Failed => Failed
    case Parsed(book, rest) => DescribedMap(rest, book, relmax, size)
  }

  method DecodeCodedMap(reader: NibbleReader, context: array<byte>, trees: nat, relmax: nat) returns (ok: bool)
    requires reader.Valid() && relmax + trees < TWO64
    modifies reader`position, context
    ensures reader.Valid()
    ensures ok <==> CodedMap(old(reader.Unread()), context.Length, trees, relmax).Parsed?
    ensures ok ==> CodedMap(old(reader.Unread()), context.Length, trees, relmax) == Parsed(context[..], reader.Unread())
  {
    ghost var bits, size := reader.Unread(), context.Length;
    var huffman; ghost var at, book;
    ok, huffman, at, book := DecodeNextBook(reader, relmax + trees);
    ghost var after := reader.Unread();
    if ok {
      ok := DecodeDescribedMap(reader, huffman, at, book, relmax, context);
      CodedMapIs(bits, size, trees, relmax, Parsed(book, after), DescribedMap(after, book, relmax, size));
    } else {
      CodedMapIs(bits, size, trees, relmax, Failed, Failed);
    }
  }

  lemma CodedMapIs(bits: seq<bool>, size: nat, trees: nat, relmax: nat, p: Parsed<seq<Entry>>, q: Parsed<seq<byte>>)
    requires relmax + trees < TWO64 && p == NextBook(bits, relmax + trees)
    requires q == if p.Parsed? then DescribedMap(p.rest, p.value, relmax, size) else Failed
    ensures CodedMap(bits, size, trees, relmax) == q
  {
  }

  /** All of `DecodeContextMap`, as a function of the bits. */
  ghost function ContextMap(bits: seq<bool>, size: nat, trees: nat): Parsed<seq<byte>>
    requires trees < 0x1_0000
  {
    if trees < 2 then Parsed(Copies(0, size), bits)
    else match RunMax(bits)
         case Failed => Failed
         case Parsed(relmax, rest) =>
           RunMaxBelow(bits);
           CodedMap(rest, size, trees, relmax)
  }

  /** The trees are numbered by a 16-bit word. */
  method DecodeContextMap(reader: NibbleReader, size: nat, trees: nat) returns (ok: bool, context: array<byte>)
    requires reader.Valid() && trees < 0x1_0000
    modifies reader`position
    ensures reader.Valid() && fresh(context) && context.Length == size
    ensures ok <==> ContextMap(old(reader.Unread()), size, trees).Parsed?
    ensures ok ==> ContextMap(old(reader.Unread()), size, trees) == Parsed(context[..], reader.Unread())
  {
    ghost var bits := reader.Unread();
    context := new byte[size];
    if trees >= 2 {
      var relmax;
      ok, relmax := ReadRunMax(reader);
      if ok {
        RunMaxBelow(bits);
        ok := DecodeCodedMap(reader, context, trees, relmax);
      }
    } else {
      FillZeros(context, 0, size);
      assert context[..] == Copies(0, size);
      ok := true;
    }
  }

  lemma StrayNamesNone(book: seq<Entry>, i: nat, relmax: nat, size: nat, trees: nat)
    requires PrefixFree(book) && i < |book| && !MeansTree(book[i].value, relmax, trees) && size > 0
    ensures !AllNameTrees(book, relmax, size, trees)
  {
    var bits, c := Repeated(book[i].word, size) + [false], (book[i].value - relmax) % 256;
    StrayEntries(book, i, relmax, size);
    assert Copies(c, size)[0] == c;
    assert !NamesTrees(DescribedMap(bits, book, relmax, size).value, trees);
  }

  /** For a prefix-free code. */
  lemma NamesTreesExactly(book: seq<Entry>, relmax: nat, size: nat, trees: nat)
    requires 0 < trees <= 256 && PrefixFree(book)
    ensures AllNameTrees(book, relmax, size, trees) <==> size == 0 || AllMeanTrees(book, relmax, trees)
  {
    if AllMeanTrees(book, relmax, trees) {
      MeaningNamesTrees(book, relmax, size, trees);
    } else if size > 0 {
      var i :| 0 <= i < |book| && !MeansTree(book[i].value, relmax, trees);
      StrayNamesNone(book, i, relmax, size, trees);
    }
  }

  predicate SymbolsMeanTrees(symbols: seq<nat>, relmax: nat, trees: nat) {
    forall i :: 0 <= i < |symbols| ==> MeansTree(symbols[i], relmax, trees)
  }

  lemma SimpleMeansTrees(symbols: seq<nat>, select: bool, relmax: nat, trees: nat)
    requires 1 <= |symbols| <= 4
    ensures AllMeanTrees(SimpleBook(symbols, select), relmax, trees) <==> SymbolsMeanTrees(symbols, relmax, trees)
  {
    var book := SimpleBook(symbols, select);
    assert forall i :: 0 <= i < |book| ==> book[i].value == symbols[i];
  }

  /**
    The numbers in all maps that can be written with a described code are those of trees, if and only if the
    description is complex or each of its symbols means a tree.
  */
  lemma MapInRangeExactly(d: Description, relmax: nat, size: nat, trees: nat)
    requires 0 < trees <= 256 && relmax + trees < TWO64 && Valid(d, relmax + trees)
    ensures AllNameTrees(BookOf(d, relmax + trees), relmax, size, trees) <==>
      size == 0 || d.Complex? || SymbolsMeanTrees(d.symbols, relmax, trees)
  {
    match d
    case Simple(symbols, select) =>
      SimpleTree(symbols, select);
      SimpleMeansTrees(symbols, select, relmax, trees);
      NamesTreesExactly(SimpleBook(symbols, select), relmax, size, trees);
    case Complex(_, _, ts) =>
      LengthsMeanTrees(FinalLengths(relmax + trees, ts), relmax, trees);
      MeaningNamesTrees(Codebook(FinalLengths(relmax + trees, ts)), relmax, size, trees);
  }

  lemma NextBookFinds(d: Description, size: nat, book: seq<Entry>, rest: seq<bool>, bits: seq<bool>)
    requires size < TWO64 && Valid(d, size) && book == BookOf(d, size) && bits == Spell(d, size) + rest
    ensures NextBook(bits, size) == Parsed(book, rest)
  {
    DescribeFinds(d, size, rest);
  }

  /** A code as its description spells it, and a map written with it. */
  lemma MapBehind(d: Description, book: seq<Entry>, rest: seq<bool>, relmax: nat, size: nat, trees: nat,
      bits: seq<bool>)
    requires relmax + trees < TWO64 && Valid(d, relmax + trees) && book == BookOf(d, relmax + trees)
    requires bits == Spell(d, relmax + trees) + rest
    ensures CodedMap(bits, size, trees, relmax) == DescribedMap(rest, book, relmax, size)
  {
    NextBookFinds(d, relmax + trees, book, rest, bits);
    CodedMapIs(bits, size, trees, relmax, Parsed(book, rest), DescribedMap(rest, book, relmax, size));
  }

  /** The same for the bits of one map. */
  lemma MapInRange(bits: seq<bool>, size: nat, trees: nat, relmax: nat, d: Description)
    requires 2 <= trees <= 256 && relmax <= 16 && CodedMap(bits, size, trees, relmax).Parsed?
    requires d == Describe(bits, relmax + trees).value
    requires d.Simple? ==> SymbolsMeanTrees(d.symbols, relmax, trees)
    ensures var m := CodedMap(bits, size, trees, relmax).value; |m| == size && NamesTrees(m, trees)
  {
    var book, rest := MapTailOf(bits, size, trees, relmax, d);
    MapInRangeExactly(d, relmax, size, trees);
    FilledMap(rest, book, relmax, size, trees);
  }

  lemma MapTailOf(bits: seq<bool>, size: nat, trees: nat, relmax: nat, d: Description)
    returns (book: seq<Entry>, rest: seq<bool>)
    requires relmax + trees < TWO64 && CodedMap(bits, size, trees, relmax).Parsed?
    requires d == Describe(bits, relmax + trees).value
    ensures Valid(d, relmax + trees) && book == BookOf(d, relmax + trees)
    ensures CodedMap(bits, size, trees, relmax) == DescribedMap(rest, book, relmax, size)
  {
    book, rest := NextBookOf(bits, relmax + trees, d);
    CodedMapIs(bits, size, trees, relmax, Parsed(book, rest), DescribedMap(rest, book, relmax, size));
  }

  lemma NextBookOf(bits: seq<bool>, n: nat, d: Description) returns (book: seq<Entry>, rest: seq<bool>)
    requires n < TWO64 && NextBook(bits, n).Parsed? && d == Describe(bits, n).value
    ensures Valid(d, n) && book == BookOf(d, n) && NextBook(bits, n) == Parsed(book, rest)
  {
    rest := Describe(bits, n).rest;
    DescribeReads(bits, n, d, rest);
    book := BookOf(d, n);
  }

  lemma FilledMap(bits: seq<bool>, book: seq<Entry>, relmax: nat, size: nat, trees: nat)
    requires size == 0 || AllNameTrees(book, relmax, size, trees)
    ensures var p := DescribedMap(bits, book, relmax, size);
      p.Parsed? ==> |p.value| == size && NamesTrees(p.value, trees)
  {
  }
}
