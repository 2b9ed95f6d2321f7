/**
  `CreateHuffman` of Compression/src/Brotli.cpp as it runs: counting lengths, numbering codes in 16-bit words,
  and hanging one path of nodes per symbol into the tree.
*/
module HuffmanTrees {
  import opened Words
  import opened PrefixCodes
  import opened CanonicalCodes

  lemma {:induction false} CodeBit(n: nat, l: nat, k: nat)
    requires k < l
    ensures Shr(n, k) >= 0 && Code(n, l)[l - 1 - k] == (Shr(n, k) % 2 == 1)
  {
    ShrNonNegative(n, k);
    if k > 0 { CodeBit(n / 2, l - 1, k - 1); }
  }

  /** The bits of a code word do not notice that its number is kept in 16 bits. */
  lemma {:induction false} CodeWraps(n: nat, l: nat, m: nat)
    requires l <= m
    ensures Code(n % Pow2(m), l) == Code(n, l)
  {
    if l > 0 {
      HalfRemainder(n, m);
      CodeWraps(n / 2, l - 1, m - 1);
    }
  }

  lemma ExtInjective(p: Path, b: bool, q: Path, c: bool)
    requires Ext(p, b) == Ext(q, c)
    ensures p == q && b == c
  {
    assert p == Ext(p, b)[..|p|] == Ext(q, c)[..|q|] == q;
    assert b == Ext(p, b)[|p|] == Ext(q, c)[|q|];
  }

  lemma ExtendTree(p: Path, b: bool)
    ensures Ext(p, b) != p && forall q, c :: Ext(q, c) == Ext(p, b) ==> p == q && b == c
  {
    forall q, c | Ext(q, c) == Ext(p, b) ensures p == q && b == c { ExtInjective(p, b, q, c); }
  }

  /** A new leaf below the node at `p`. */
  method Attach(node: Huffman, ghost at: map<Path, Huffman>, ghost p: Path, b: bool)
    returns (child: Huffman, ghost at': map<Path, Huffman>)
    requires Tree(at) && p in at && at[p] == node && Ext(p, b) !in at
    modifies node
    ensures at' == at[Ext(p, b) := child] && Tree(at')
    ensures fresh(child) && child.value == 0 && node.value == old(node.value)
  {
    ExtendTree(p, b);
    child := new Huffman(0);
    node.SetChild(b, child);
    at' := at[Ext(p, b) := child];
  }

  /** A step down, over a new node if there is none. */
  method Descend(node: Huffman, ghost at: map<Path, Huffman>, ghost p: Path, b: bool)
    returns (child: Huffman, ghost at': map<Path, Huffman>)
    requires Tree(at) && p in at && at[p] == node
    modifies node
    ensures Tree(at') && Ext(p, b) in at' && at'[Ext(p, b)] == child && at'[[]] == at[[]]
    ensures ShapeAt(at') == Touch(old(ShapeAt(at)), Ext(p, b))
    ensures fresh(at'.Values - at.Values)
  {
    at' := at;
    var next := node.Child(b);
    if next == null {
      child, at' := Attach(node, at, p, b);
    } else {
      child := next;
    }
  }

  method StoreValue(node: Huffman, ghost at: map<Path, Huffman>, ghost p: Path, sym: nat)
    requires Tree(at) && p in at && at[p] == node
    modifies node`value
    ensures Tree(at) && ShapeAt(at) == old(ShapeAt(at))[p := sym]
  {
    node.value := sym;
  }

  lemma WordStep(word: Path, k: nat, b: bool)
    requires k < |word| && word[k] == b
    ensures Ext(word[..k], b) == word[..k + 1]
  {
  }

  /** The inner loop of `CreateHuffman`: from the highest bit of `symcod` down, one node per bit. */
  method InsertWord(root: Huffman, ghost at: map<Path, Huffman>, symcod: nat, symlen: nat, sym: nat)
    returns (ghost at': map<Path, Huffman>)
    requires Tree(at) && at[[]] == root
    modifies at.Values
    ensures Tree(at') && at'[[]] == root && fresh(at'.Values - at.Values)
    ensures ShapeAt(at') == Insert(old(ShapeAt(at)), Code(symcod, symlen), sym)
  {
    ghost var word, before := Code(symcod, symlen), ShapeAt(at);
    var current: Huffman, k: nat := root, symlen;
    at' := at;
    assert word[..0] == [];
    while k > 0
      invariant k <= symlen == |word| && Tree(at') && at'[[]] == root && fresh(at'.Values - at.Values)
      invariant word[..symlen - k] in at' && at'[word[..symlen - k]] == current
      invariant ShapeAt(at') == Reach(before, word, symlen - k)
    {
      CodeBit(symcod, symlen, k - 1);
      var bit := Shr(symcod, k - 1) % 2;
      WordStep(word, symlen - k, bit == 1);
      current, at' := Descend(current, at', word[..symlen - k], bit == 1);
      k := k - 1;
    }
    assert word[..symlen] == word;
    StoreValue(current, at', word, sym);
  }

  // --- counting and numbering -----------------------------------------------------------------------------

  const WORD: nat := 0x1_0000

  /** The number of the first code of length `l`, as the 16-bit word it is kept in. */
  function First(lens: seq<byte>, l: nat): nat {
    Offset(lens, l) % WORD
  }

  lemma NextFirst(lens: seq<byte>, i: nat)
    ensures 2 * (First(lens, i) + Count(lens, i)) % WORD == First(lens, i + 1)
  {
    WrapDouble(Offset(lens, i), Count(lens, i));
  }

  lemma WrapDouble(a: nat, c: nat)
    ensures 2 * (a % WORD + c) % WORD == 2 * (a + c) % WORD
  {
  }

  /** The next number to hand out, after the first `i` symbols have theirs. */
  function Next(lens: seq<byte>, l: nat, i: nat): nat
    requires i <= |lens|
  {
    (Offset(lens, l) + Rank(lens, l, i)) % WORD
  }

  lemma NextStep(lens: seq<byte>, l: nat, i: nat)
    requires i < |lens|
    ensures Next(lens, l, i + 1) == if lens[i] == l then (Next(lens, l, i) + 1) % WORD else Next(lens, l, i)
    ensures Next(lens, l, 0) == First(lens, l)
  {
    WrapNext(Offset(lens, l) + Rank(lens, l, i));
  }

  lemma WrapNext(a: nat)
    ensures (a % WORD + 1) % WORD == (a + 1) % WORD
  {
  }

  method CountLengths(lens: seq<byte>) returns (count: array<nat>, numsym: nat, last: nat)
    requires Lengths(lens)
    ensures fresh(count) && count.Length == 16 && forall l :: 0 <= l < 16 ==> count[l] == Count(lens, l)
    ensures numsym == Symbols(lens, |lens|) && last == Last(lens, |lens|)
  {
    count := new nat[16](_ => 0);
    numsym, last := 0, 0;
    for i := 0 to |lens|
      invariant count[0] == 0 && forall l :: 1 <= l < 16 ==> count[l] == Rank(lens, l, i)
      invariant numsym == Symbols(lens, i) && last == Last(lens, i)
    {
      if lens[i] != 0 {
        last := i;
        numsym := numsym + 1;
        count[lens[i]] := count[lens[i]] + 1;
      }
    }
  }

  method FirstCodes(count: array<nat>, ghost lens: seq<byte>) returns (offset: array<nat>)
    requires count.Length == 16 && forall l :: 0 <= l < 16 ==> count[l] == Count(lens, l)
    ensures fresh(offset) && offset[..] == Row(lens, 0)
  {
    offset := new nat[16](_ => 0);
    for i := 0 to 15
      invariant forall l :: 0 <= l <= i ==> offset[l] == First(lens, l)
    {
      NextFirst(lens, i);
      offset[i + 1] := 2 * (offset[i] + count[i]) % WORD;
    }
    forall l | 0 <= l < 16 ensures offset[l] == Row(lens, 0)[l] { FirstRow(lens, l); }
  }

  /** The tree of the canonical code; its root and, as ghost, all its nodes by path. */
  method CreateHuffman(lens: seq<byte>) returns (root: Huffman, ghost at: map<Path, Huffman>)
    requires Lengths(lens)
    ensures Tree(at) && at[[]] == root && fresh(at.Values)
    ensures ShapeAt(at) == ShapeOf(Codebook(lens))
  {
    var count, numsym, last := CountLengths(lens);
    if numsym == 1 {
      root := new Huffman(last);
      at := map[[] := root];
      LoneShape(lens);
    } else {
      var offset := FirstCodes(count, lens);
      root, at := BuildTree(lens, offset);
    }
  }

  lemma LoneShape(lens: seq<byte>)
    requires Symbols(lens, |lens|) == 1
    ensures ShapeOf(Codebook(lens)) == map[[] := Last(lens, |lens|)]
  {
    assert Codebook(lens)[..0] == [];
  }

  /** The array `offset` after the first `i` symbols have their numbers; entry 0 is never used. */
  function Row(lens: seq<byte>, i: nat): (row: seq<nat>)
    requires i <= |lens|
  {
    seq(16, l requires 0 <= l => if l == 0 then 0 else Next(lens, l, i))
  }

  /** `offset[symlen]++` */
  method TakeCode(offset: array<nat>, lens: seq<byte>, sym: nat) returns (symcod: nat)
    requires Lengths(lens) && sym < |lens| && lens[sym] != 0
    requires offset[..] == Row(lens, sym)
    modifies offset
    ensures symcod == Next(lens, lens[sym], sym)
    ensures offset[..] == Row(lens, sym + 1)
  {
    var symlen := lens[sym];
    symcod := offset[..][symlen];
    offset[symlen] := (symcod + 1) % WORD;
    NextRow(lens, sym);
  }

  lemma NextRow(lens: seq<byte>, sym: nat)
    requires sym < |lens| && lens[sym] <= MAXLEN
    ensures var row, n := Row(lens, sym), lens[sym];
      Row(lens, sym + 1) == if n == 0 then row else row[n := (row[n] + 1) % WORD]
  {
    forall l | 1 <= l < 16
      ensures Row(lens, sym + 1)[l] == if lens[sym] == l then (Row(lens, sym)[l] + 1) % WORD else Row(lens, sym)[l]
    {
      NextStep(lens, l, sym);
    }
  }

  lemma FirstRow(lens: seq<byte>, l: nat)
    requires l < 16
    ensures Row(lens, 0)[l] == First(lens, l)
  {
  }

  /** One symbol: its number is taken and its path is hung into the tree. */
  method AddSymbol(root: Huffman, ghost at: map<Path, Huffman>, offset: array<nat>, lens: seq<byte>, sym: nat)
    returns (ghost at': map<Path, Huffman>)
    requires Lengths(lens) && sym < |lens| && offset[..] == Row(lens, sym)
    requires Tree(at) && at[[]] == root && ShapeAt(at) == ShapeOf(Book(lens, sym))
    modifies offset, at.Values
    ensures Tree(at') && at'[[]] == root && ShapeAt(at') == ShapeOf(Book(lens, sym + 1))
    ensures offset[..] == Row(lens, sym + 1) && fresh(at'.Values - at.Values)
  {
    at' := at;
    if lens[sym] != 0 {
      var symcod := TakeCode(offset, lens, sym);
      SymbolWord(lens, sym, symcod);
      at' := InsertWord(root, at, symcod, lens[sym], sym);
    } else {
      NextRow(lens, sym);
    }
  }

  /** The loop over the symbols. */
  method BuildTree(lens: seq<byte>, offset: array<nat>) returns (root: Huffman, ghost at: map<Path, Huffman>)
    requires Lengths(lens)
    requires offset[..] == Row(lens, 0)
    modifies offset
    ensures Tree(at) && at[[]] == root && fresh(at.Values)
    ensures ShapeAt(at) == ShapeOf(Book(lens, |lens|))
  {
    root := new Huffman(0);
    at := map[[] := root];
    for sym := 0 to |lens|
      invariant Tree(at) && at[[]] == root && fresh(at.Values)
      invariant offset[..] == Row(lens, sym)
      invariant ShapeAt(at) == ShapeOf(Book(lens, sym))
    {
      at := AddSymbol(root, at, offset, lens, sym);
    }
  }

  lemma SymbolWord(lens: seq<byte>, sym: nat, symcod: nat)
    requires sym < |lens| && 0 < lens[sym] <= MAXLEN && symcod == Next(lens, lens[sym], sym)
    ensures Code(symcod, lens[sym]) == Word(lens, sym)
    ensures ShapeOf(Book(lens, sym + 1)) == Insert(ShapeOf(Book(lens, sym)), Word(lens, sym), sym)
  {
    assert Pow2(8) == 256 && Pow2(16) == WORD;
    CodeWraps(CodeNumber(lens, sym), lens[sym], 16);
    var book := Book(lens, sym + 1);
    assert book[..|book| - 1] == Book(lens, sym);
  }
}
